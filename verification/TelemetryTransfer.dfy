/** Handing a field table over to a decoder, and the values that follow it. */
module TelemetryTransfer {
  import opened Bytes
  import opened TelemetryStream
  import opened TelemetryFormat
  import opened TelemetryDecode
  import opened TelemetryState

  // ---------- the table in parts ----------

  /** The number of the part the sender marks as the last one. */
  function LastPart(fields: seq<Field>, size: Byte): nat
    requires size > 0
  {
    var pcnt := PartCount(FIELD_BYTES * |fields|, size);
    if pcnt == 0 then 0 else pcnt - 1
  }

  /** The table fits the decoder, and one byte is enough to number its parts. */
  ghost predicate Transferable(fields: seq<Field>, size: Byte) {
    |fields| <= SLOTS_SIZE && size > 0 && PartCount(FIELD_BYTES * |fields|, size) < 256
  }

  /** With the encoder's default part size every table is. */
  lemma DefaultSizeFits(fields: seq<Field>)
    requires |fields| <= SLOTS_SIZE
    ensures Transferable(fields, FMT_BLOCK_SIZE)
  {
  }

  /** The memory agrees with the table's bytes on one part. */
  ghost predicate Agrees(raw: seq<Byte>, bytes: seq<Byte>, size: Byte, part: nat) {
    |bytes| <= |raw| && forall k :: Pos(part, size) <= k < Pos(part, size) + size && k < |bytes| ==> raw[k] == bytes[k]
  }

  ghost predicate HasPart(d: Dec, fields: seq<Field>, size: Byte, part: nat) {
    Agrees(d.raw, TableBytes(fields), size, part)
  }

  /** The decoder has taken the sender's hash. */
  ghost predicate Loading(d: Dec, fields: seq<Field>) {
    Guarded(d) && d.hashValid == 4 && d.hash == Hash(TableBytes(fields))
  }

  lemma PartLength(fields: seq<Field>, part: Byte, size: Byte)
    requires Transferable(fields, size) && part <= LastPart(fields, size)
    ensures var n := FIELD_BYTES * |fields|; var len := |Part(TableBytes(fields), part, size)|;
            && Pos(part, size) + len <= n
            && (part < LastPart(fields, size) ==> len == size as int)
            && (part == LastPart(fields, size) ==> len <= size as int && Pos(part, size) + len == n)
  {
    hide TableBytes, Pos, PartCount;
    var n := FIELD_BYTES * |fields|;
    NoParts(n, size);
    if PartCount(n, size) > 0 {
      PartBounds(n, part, size);
    }
  }

  /** What one part does to the decoder's memory. */
  function Overlaid(raw: seq<Byte>, pos: nat, block: seq<Byte>): (r: seq<Byte>)
    requires pos + |block| <= |raw|
    ensures |r| == |raw|
    ensures forall k :: 0 <= k < |raw| ==> r[k] == if pos <= k < pos + |block| then block[k - pos] else raw[k]
  {
    raw[..pos] + block + raw[pos + |block|..]
  }

  /** The state as a part finds it, once the hash in its header is settled. */
  function Under(d: Dec, fields: seq<Field>, part: Byte): Dec
    requires d.Shaped()
  {
    if part == 0 then TakeHash(d, Hash(TableBytes(fields))) else d
  }

  lemma UnderLoads(d: Dec, fields: seq<Field>, part: Byte)
    requires d.Shaped() && (part == 0 || (d.hashValid == 4 && d.hash == Hash(TableBytes(fields))))
    ensures var e := Under(d, fields, part);
            e.Shaped() && e.raw == d.raw && e.hashValid == 4 && e.hash == Hash(TableBytes(fields))
  {
  }

  /** A message of the transfer, taken by a decoder that has the sender's hash or gets it now. */
  lemma PartTaken(d: Dec, fields: seq<Field>, part: Byte, size: Byte, e: Dec, pos: nat, block: seq<Byte>)
    requires Guarded(d) && Transferable(fields, size) && part <= LastPart(fields, size)
    requires part == 0 || Loading(d, fields)
    requires pos == Pos(part, size) && block == Part(TableBytes(fields), part, size)
    requires e == Under(d, fields, part) && e.Shaped() && pos + |block| <= TABLE_BYTES
    ensures Handle(d, Table(FormatMessage(fields, part, size))) ==
            AfterBlock(e.(raw := Overlaid(e.raw, pos, block)), pos + |block|, part == LastPart(fields, size)).0
  {
    hide TableBytes, Hash, AfterBlock, Part, Pos;
    PartLength(fields, part, size);
    var bytes := TableBytes(fields);
    var s := FormatMessage(fields, part, size);
    assert s[..8] == [FMT_VERSION, part, PartCount(|bytes|, size) % 256, size] + Hash(bytes);
    assert s[4..8] == s[..8][4..] == Hash(bytes) && s[8..] == block;
    assert s[0] == s[..8][0] && s[1] == s[..8][1] && s[2] == s[..8][2] && s[3] == s[..8][3];
  }

  lemma OverlaidAgrees(raw: seq<Byte>, bytes: seq<Byte>, size: Byte, part: Byte, len: nat)
    requires |bytes| <= |raw| && Pos(part, size) + len <= |bytes|
    requires len == size as int || Pos(part, size) + len == |bytes|
    ensures var r := Overlaid(raw, Pos(part, size), bytes[Pos(part, size)..Pos(part, size) + len]);
            && Agrees(r, bytes, size, part)
            && forall p: nat :: Agrees(raw, bytes, size, p) ==> Agrees(r, bytes, size, p)
  {
  }

  lemma PartOf(k: nat, size: Byte, last: nat) returns (part: nat)
    requires size > 0 && k < Pos(last, size) + size
    ensures part <= last && Pos(part, size) <= k < Pos(part, size) + size
    decreases last
  {
    part := last;
    if k < last * size {
      assert (last - 1) * size + size == last * size;
      part := PartOf(k, size, last - 1);
    }
  }

  lemma AllAgree(raw: seq<Byte>, bytes: seq<Byte>, size: Byte, last: nat)
    requires |bytes| <= |raw| && size > 0 && |bytes| <= Pos(last, size) + size
    requires forall p: nat :: p <= last ==> Agrees(raw, bytes, size, p)
    ensures raw[..|bytes|] == bytes
  {
    forall k | 0 <= k < |bytes| ensures raw[k] == bytes[k] {
      var p := PartOf(k, size, last);
      assert Agrees(raw, bytes, size, p);
    }
  }

  /** A block never changes the memory or the hash once the length is in order, and the last one
      brings the table into use if the hash is right. */
  lemma BlockKeeps(d: Dec, end: nat, isFinal: bool)
    requires d.Shaped() && end <= TABLE_BYTES && (isFinal ==> end % FIELD_BYTES == 0) && d.hashValid == 4
    ensures var e := AfterBlock(d, end, isFinal).0;
            && e.Shaped() && e.raw == d.raw && e.hash == d.hash && e.hashValid == 4
            && (isFinal && Hash(d.raw[..end]) == d.hash ==> e.cnt == end / FIELD_BYTES && e.valid)
  {
    hide Hash;
  }

  /** What a state has gained from one part over a memory before it. */
  ghost predicate Gained(e: Dec, raw: seq<Byte>, bytes: seq<Byte>, size: Byte, part: Byte, isFinal: bool) {
    && e.Shaped() && e.hashValid == 4 && e.hash == Hash(bytes) && Agrees(e.raw, bytes, size, part)
    && |bytes| <= TABLE_BYTES
    && (forall p: nat :: Agrees(raw, bytes, size, p) ==> Agrees(e.raw, bytes, size, p))
    && (isFinal && e.raw[..|bytes|] == bytes ==> e.cnt == |bytes| / FIELD_BYTES && e.valid)
  }

  /** A block of the table arrives at its place. */
  lemma BlockStep(d: Dec, bytes: seq<Byte>, size: Byte, part: Byte, block: seq<Byte>, isFinal: bool)
    requires d.Shaped() && d.hashValid == 4 && d.hash == Hash(bytes) && |bytes| <= TABLE_BYTES
    requires Pos(part, size) + |block| <= |bytes| && |bytes| % FIELD_BYTES == 0
    requires block == bytes[Pos(part, size)..Pos(part, size) + |block|]
    requires if isFinal then Pos(part, size) + |block| == |bytes| else |block| == size as int
    ensures var pos := Pos(part, size);
            var e := AfterBlock(d.(raw := Overlaid(d.raw, pos, block)), pos + |block|, isFinal).0;
            Gained(e, d.raw, bytes, size, part, isFinal)
  {
    hide Hash, AfterBlock, Agrees, Pos;
    var pos := Pos(part, size);
    OverlaidAgrees(d.raw, bytes, size, part, |block|);
    var d2 := d.(raw := Overlaid(d.raw, pos, block));
    hide Overlaid;
    BlockKeeps(d2, pos + |block|, isFinal);
  }

  lemma PartStep(d: Dec, fields: seq<Field>, part: Byte, size: Byte)
    requires Guarded(d) && Transferable(fields, size) && part <= LastPart(fields, size)
    requires part == 0 || Loading(d, fields)
    ensures var e := Handle(d, Table(FormatMessage(fields, part, size)));
            Guarded(e) && Gained(e, d.raw, TableBytes(fields), size, part, part == LastPart(fields, size))
  {
    hide Hash, AfterBlock, Agrees, TableBytes, Part, LastPart, PartCount, Pos, Format, Overlaid, TakeHash, Under,
         Gained;
    var block := Part(TableBytes(fields), part, size);
    PartLength(fields, part, size);
    PartSlice(TableBytes(fields), part, size);
    UnderLoads(d, fields, part);
    PartTaken(d, fields, part, size, Under(d, fields, part), Pos(part, size), block);
    FormatGuarded(d, FormatMessage(fields, part, size));
    hide FormatMessage;
    BlockStep(Under(d, fields, part), TableBytes(fields), size, part, block,
              part == LastPart(fields, size));
  }

  lemma PartSlice(bytes: seq<Byte>, part: Byte, size: Byte)
    requires size > 0
    requires Pos(part, size) + |Part(bytes, part, size)| <= |bytes|
    ensures Part(bytes, part, size) == bytes[Pos(part, size)..Pos(part, size) + |Part(bytes, part, size)|]
  {
  }

  /** The table is in place. */
  ghost predicate Transferred(d: Dec, fields: seq<Field>) {
    Loading(d, fields) && d.valid && d.cnt == |fields| && d.raw[..FIELD_BYTES * |fields|] == TableBytes(fields)
  }

  lemma LastStep(d: Dec, fields: seq<Field>, size: Byte)
    requires Guarded(d) && Transferable(fields, size) && LastPart(fields, size) < 256
    requires LastPart(fields, size) == 0 || Loading(d, fields)
    requires forall p: nat :: p < LastPart(fields, size) ==> HasPart(d, fields, size, p)
    ensures Transferred(Handle(d, Table(FormatMessage(fields, LastPart(fields, size), size))), fields)
  {
    hide TableBytes, Hash, Handle, FormatMessage, Agrees, LastPart;
    var part := LastPart(fields, size);
    PartStep(d, fields, part, size);
    PartLength(fields, part, size);
    var e := Handle(d, Table(FormatMessage(fields, part, size)));
    forall p: nat | p <= part ensures Agrees(e.raw, TableBytes(fields), size, p) {
      assert p < part ==> HasPart(d, fields, size, p);
    }
    AllAgree(e.raw, TableBytes(fields), size, part);
  }

  /** The messages that carry these parts of the table, in this order. */
  function PartMessages(fields: seq<Field>, parts: seq<Byte>, size: Byte): (ms: seq<Message>)
    requires size > 0
    ensures |ms| == |parts|
    decreases |parts|
  {
    if parts == [] then []
    else [Table(FormatMessage(fields, parts[0], size))] + PartMessages(fields, parts[1..], size)
  }

  lemma {:induction false} PartsFinish(d: Dec, fields: seq<Field>, parts: seq<Byte>, size: Byte)
    requires Guarded(d) && Transferable(fields, size) && parts != []
    requires parts[0] == 0 || Loading(d, fields)
    requires parts[|parts| - 1] as int == LastPart(fields, size)
    requires forall i :: 0 <= i < |parts| ==> parts[i] <= LastPart(fields, size)
    requires forall p: Byte :: p < LastPart(fields, size) ==>
               p in parts || (Loading(d, fields) && HasPart(d, fields, size, p))
    ensures Transferred(HandleAll(d, PartMessages(fields, parts, size)), fields)
    decreases |parts|
  {
    hide TableBytes, Hash, Handle, FormatMessage, Agrees, LastPart, PartCount;
    var ms := PartMessages(fields, parts, size);
    var e := Handle(d, ms[0]);
    if |parts| == 1 {
      LastStep(d, fields, size);
      assert ms[1..] == [];
    } else {
      PartStep(d, fields, parts[0], size);
      assert parts == [parts[0]] + parts[1..];
      forall p: Byte | p < LastPart(fields, size)
        ensures p in parts[1..] || (Loading(e, fields) && HasPart(e, fields, size, p))
      {
        assert p in parts || HasPart(d, fields, size, p);
      }
      PartsFinish(e, fields, parts[1..], size);
      assert ms[1..] == PartMessages(fields, parts[1..], size);
    }
  }

  /** Part 0 first, the last part last, all others between in any order and any number of times. */
  ghost predicate Complete(fields: seq<Field>, parts: seq<Byte>, size: Byte)
    requires size > 0
  {
    && parts != [] && parts[0] == 0 && parts[|parts| - 1] as int == LastPart(fields, size)
    && forall p: Byte :: p in parts <==> p <= LastPart(fields, size)
  }

  /** From every reachable state the decoder ends with exactly the sender's table, valid, under its hash. */
  lemma TableTransferred(d: Dec, fields: seq<Field>, parts: seq<Byte>, size: Byte)
    requires Guarded(d) && Transferable(fields, size) && Complete(fields, parts, size)
    ensures var e := HandleAll(d, PartMessages(fields, parts, size)); Transferred(e, fields) && e.Fields() == fields
  {
    hide Hash, ParseTable, HandleAll, TableBytes, LastPart, Transferred;
    assert forall i :: 0 <= i < |parts| ==> parts[i] in parts;
    PartsFinish(d, fields, parts, size);
    TransferredFields(HandleAll(d, PartMessages(fields, parts, size)), fields);
  }

  lemma TransferredFields(d: Dec, fields: seq<Field>)
    requires Transferred(d, fields)
    ensures d.Fields() == fields
  {
    hide Hash, ParseTable, TableBytes;
    ParseTableBytes(fields, d.raw[FIELD_BYTES * |fields|..]);
    assert d.raw == TableBytes(fields) + d.raw[FIELD_BYTES * |fields|..];
  }

  /** A decoder that uses a table of as many fields under the sender's hash has the sender's table, or one
      that differs from it in more than one word. */
  lemma TableTold(d: Dec, fields: seq<Field>, k: nat)
    requires Guarded(d) && d.cnt == |fields| > 0 && d.hash == Hash(TableBytes(fields)) && 4 * k < FIELD_BYTES * d.cnt
    requires forall i :: 0 <= i < FIELD_BYTES * d.cnt && !(4 * k <= i < 4 * k + 4) ==> d.raw[i] == TableBytes(fields)[i]
    ensures d.Fields() == fields
  {
    hide Hash, TableBytes, ParseTable;
    var image := d.raw[..FIELD_BYTES * d.cnt];
    if image != TableBytes(fields) {
      HashApart(image, TableBytes(fields), k);
    }
    ParseTableBytes(fields, d.raw[FIELD_BYTES * d.cnt..]);
    assert d.raw == image + d.raw[FIELD_BYTES * d.cnt..];
  }

  // ---------- old values ----------

  lemma FormatCells(d: Dec, s: seq<Byte>)
    requires d.Shaped()
    ensures Format(d, s).0.cells in {d.cells, BlankCells()}
  {
    hide Hash, Pos, BlankCells;
  }

  lemma OtherHashBlanks(d: Dec, fields: seq<Field>, part: Byte, size: Byte)
    requires d.Shaped() && size > 0 && d.hash != Hash(TableBytes(fields))
    ensures Format(d, FormatMessage(fields, part, size)).0.cells == BlankCells()
  {
    hide TableBytes, Hash, Part, Pos, PartCount, BlankCells;
    var bytes := TableBytes(fields);
    var s := FormatMessage(fields, part, size);
    assert s[..8] == [FMT_VERSION, part, PartCount(|bytes|, size) % 256, size] + Hash(bytes);
    assert s[4..8] == s[..8][4..] == Hash(bytes);
    assert s[0] == s[..8][0] && s[1] == s[..8][1] && s[2] == s[..8][2] && s[3] == s[..8][3];
  }

  lemma {:induction false} BlankStays(d: Dec, ms: seq<Message>)
    requires Guarded(d) && d.cells == BlankCells() && forall i :: 0 <= i < |ms| ==> ms[i].Table?
    ensures HandleAll(d, ms).cells == BlankCells()
    decreases |ms|
  {
    hide Format, BlankCells;
    if ms != [] {
      FormatGuarded(d, ms[0].s);
      FormatCells(d, ms[0].s);
      BlankStays(Handle(d, ms[0]), ms[1..]);
    }
  }

  /** Messages of a sender with another hash, whichever they are, leave no value of the old table. */
  lemma OldValuesGone(d: Dec, fields: seq<Field>, parts: seq<Byte>, size: Byte)
    requires Guarded(d) && size > 0 && parts != [] && d.hash != Hash(TableBytes(fields))
    ensures HandleAll(d, PartMessages(fields, parts, size)).cells == BlankCells()
    ensures forall c :: c in BlankCells() ==> c.value == Unset
  {
    hide Format, FormatMessage, Hash, TableBytes;
    var ms := PartMessages(fields, parts, size);
    FormatGuarded(d, ms[0].s);
    OtherHashBlanks(d, fields, parts[0], size);
    forall i | 0 <= i < |ms| ensures ms[i].Table? {
      AllTables(fields, parts, size, i);
    }
    BlankStays(Handle(d, ms[0]), ms[1..]);
  }

  lemma {:induction false} AllTables(fields: seq<Field>, parts: seq<Byte>, size: Byte, i: nat)
    requires size > 0 && i < |parts|
    ensures PartMessages(fields, parts, size)[i].Table?
    decreases i
  {
    if i > 0 {
      AllTables(fields, parts[1..], size, i - 1);
    }
  }

  // ---------- when the parts are too many ----------

  /** The decoder has no table, one of another size, or one under another hash. */
  ghost predicate Elsewhere(d: Dec, fields: seq<Field>) {
    d.cnt != |fields| || d.hash != Hash(TableBytes(fields))
  }

  lemma CountAfterBlock(d: Dec, end: nat, isFinal: bool)
    requires d.Shaped() && end <= TABLE_BYTES
    ensures var e := AfterBlock(d, end, isFinal).0;
            e.cnt == 0 || e.cnt == d.cnt || (isFinal && e.cnt == end / FIELD_BYTES)
  {
    hide Hash;
  }

  /** What the sender marks as the last part then ends before the table does. */
  lemma EndsEarly(fields: seq<Field>, part: Byte, size: Byte)
    requires |fields| <= SLOTS_SIZE && size > 0 && PartCount(FIELD_BYTES * |fields|, size) >= 256
    requires var pcnt := PartCount(FIELD_BYTES * |fields|, size) % 256;
             part as int + 1 == pcnt || (part == 0 && pcnt == 0)
    ensures Pos(part, size) + |Part(TableBytes(fields), part, size)| < FIELD_BYTES * |fields|
  {
    hide TableBytes, Pos, PartCount;
    var n := FIELD_BYTES * |fields|;
    NoParts(n, size);
    PartBounds(n, part, size);
  }

  lemma TooManyStep(d: Dec, fields: seq<Field>, part: Byte, size: Byte)
    requires Guarded(d) && |fields| <= SLOTS_SIZE && size > 0 && Elsewhere(d, fields)
    requires PartCount(FIELD_BYTES * |fields|, size) >= 256
    ensures var e := Handle(d, Table(FormatMessage(fields, part, size))); Guarded(e) && e.cnt != |fields|
  {
    FormatGuarded(d, FormatMessage(fields, part, size));
    hide TableBytes, Hash, AfterBlock, Part, Pos, PartCount;
    var bytes := TableBytes(fields);
    var s := FormatMessage(fields, part, size);
    var pcnt := PartCount(|bytes|, size) % 256;
    NoParts(|bytes|, size);
    assert s[..8] == [FMT_VERSION, part, pcnt, size] + Hash(bytes);
    assert s[4..8] == s[..8][4..] == Hash(bytes) && s[8..] == Part(bytes, part, size);
    assert s[0] == s[..8][0] && s[1] == s[..8][1] && s[2] == s[..8][2] && s[3] == s[..8][3];
    hide FormatMessage;
    BlockCount(d, part, pcnt, size, Hash(bytes), s[8..]);
    if part as int + 1 == pcnt || (part == 0 && pcnt == 0) {
      EndsEarly(fields, part, size);
    }
  }

  lemma BlockCount(d: Dec, part: Byte, pcnt: Byte, size: Byte, hash: seq<Byte>, block: seq<Byte>)
    requires d.Shaped() && |hash| == 4
    ensures var e := TakeBlock(d, part, pcnt, size, hash, block).0;
            || e.cnt == 0 || (e.cnt == d.cnt && hash == d.hash)
            || ((part as int + 1 == pcnt || (part == 0 && pcnt == 0))
                && e.cnt == (Pos(part, size) + |block|) / FIELD_BYTES)
  {
    hide AfterBlock, Pos;
    var e := if part == 0 then TakeHash(d, hash) else d;
    var pos := Pos(part, size);
    if (part == 0 || hash == d.hash) && pos + |block| <= TABLE_BYTES {
      CountAfterBlock(e.(raw := e.raw[..pos] + block + e.raw[pos + |block|..]), pos + |block|,
                      part as int + 1 == pcnt || (part == 0 && pcnt == 0));
    }
  }

  lemma {:induction false} NeverTransferred(d: Dec, fields: seq<Field>, parts: seq<Byte>, size: Byte)
    requires Guarded(d) && |fields| <= SLOTS_SIZE && size > 0 && Elsewhere(d, fields)
    requires PartCount(FIELD_BYTES * |fields|, size) >= 256
    ensures Elsewhere(HandleAll(d, PartMessages(fields, parts, size)), fields)
    decreases |parts|
  {
    hide TableBytes, Hash, Handle, FormatMessage, PartCount;
    if parts != [] {
      var ms := PartMessages(fields, parts, size);
      TooManyStep(d, fields, parts[0], size);
      assert ms[1..] == PartMessages(fields, parts[1..], size);
      NeverTransferred(Handle(d, ms[0]), fields, parts[1..], size);
    }
  }

  /** All parts, one after the other. */
  function InOrder(last: nat): (parts: seq<Byte>)
    requires last < 256
    ensures |parts| == last + 1 && forall i :: 0 <= i <= last ==> parts[i] as int == i
  {
    seq(last + 1, i requires 0 <= i <= last => i)
  }

  lemma InOrderComplete(fields: seq<Field>, size: Byte)
    requires Transferable(fields, size)
    ensures LastPart(fields, size) < 256 && Complete(fields, InOrder(LastPart(fields, size)), size)
  {
    hide PartCount;
    var last := LastPart(fields, size);
    var parts := InOrder(last);
    forall p: Byte ensures p in parts <==> p <= last {
      if p <= last {
        assert parts[p] == p;
      }
    }
  }

  ghost predicate Reached(d: Dec, fields: seq<Field>, parts: seq<Byte>, size: Byte)
    requires Guarded(d) && size > 0
  {
    Transferred(HandleAll(d, PartMessages(fields, parts, size)), fields)
  }

  /** A decoder without this table can be brought to it by the sender's messages if and only if the number
      of parts fits its byte in the header. */
  lemma TransferableExact(d: Dec, fields: seq<Field>, size: Byte)
    requires Guarded(d) && |fields| <= SLOTS_SIZE && size > 0 && Elsewhere(d, fields)
    ensures (exists parts :: Reached(d, fields, parts, size)) <==> Transferable(fields, size)
  {
    hide TableBytes, Hash, HandleAll, PartCount;
    if Transferable(fields, size) {
      InOrderComplete(fields, size);
      var parts := InOrder(LastPart(fields, size));
      TableTransferred(d, fields, parts, size);
      assert Reached(d, fields, parts, size);
    } else {
      forall parts ensures !Reached(d, fields, parts, size) {
        NeverTransferred(d, fields, parts, size);
      }
    }
  }

  // ---------- values under the table ----------

  /** When a packet can be read back. */
  ghost predicate Readable(job: Job)
    requires job.Valid()
  {
    AllSized(job, 0) && (job.N() < |job.fields| || !EndsSharedAt(job, 0))
  }

  /** The decoder has taken exactly what the sender packed: every transmitted slot, every bitfield, and
      nothing else has changed. */
  ghost predicate Delivered(before: Dec, after: Dec, updated: bool, job: Job, bits: seq<bool>)
    requires job.Valid() && |bits| == |job.fields| - job.N()
  {
    && before.Shaped() && before.cnt == |job.fields| && Transferred(after, job.fields)
    && after.cells[..after.cnt] == Merged(job, bits, before.cells[..before.cnt])
    && updated == (Count(job, 0) > 0 || bits != [])
  }

  /** A decoder under the sender's table takes exactly what the sender packed, or, if the packet is not
      readable, resets itself. */
  lemma ValuesDelivered(d: Dec, ts: nat, job: Job, bits: seq<bool>)
    requires Transferred(d, job.fields) && job.fields != []
    requires job.Valid() && |bits| == |job.fields| - job.N() && ts < 0x1_0000
    ensures var (e, updated) := Receive(d, job.pseq % 4, ValuePacket(ts, job, bits));
            if Readable(job) then Delivered(d, e, updated, job, bits)
            else e.cnt == 0 && !e.valid && e.hash == NO_HASH
  {
    hide Decode, Hash, ParseTable, TableBytes, Stream, Merged, Count, AllSized, EndsSharedAt;
    var s := ValuePacket(ts, job, bits);
    assert s[..3] == Le16(ts) + [d.hash[job.pseq % 4]] && s[3..] == Stream(job, bits);
    assert s[2] == s[..3][2] == d.hash[job.pseq % 4];
    assert s[0] == s[..3][0] && s[1] == s[..3][1];
    RoundTrip(job, bits, d.cells[..d.cnt]);
    DecodeMasked(job.fields, job.pseq, Stream(job, bits), d.cells[..d.cnt]);
    assert TakeFeed(d, job.pseq % 4, s[2]) == d;
    var e0 := TakeTime(d, FromLe16(s[0], s[1])).(valid := true);
    assert Receive(d, job.pseq % 4, s) == TakeValues(e0, job.pseq % 4, Stream(job, bits));
    TransferredFields(d, job.fields);
    ReceiveGuarded(d, job.pseq % 4, s);
    assert e0.Fields() == job.fields && e0.cells == d.cells;
    var r := Decode(job.fields, job.pseq % 4, Stream(job, bits), d.cells[..d.cnt]);
    if r.Accepted? {
      assert (r.cells + d.cells[d.cnt..])[..d.cnt] == r.cells;
    }
  }

  /** A sender without slots keeps its decoder valid. */
  lemma NothingDelivered(d: Dec, ts: nat, job: Job)
    requires Guarded(d) && d.hashValid == 4 && d.cnt == 0 && job.fields == [] && ts < 0x1_0000
    requires d.hash == Hash(TableBytes([])) && job.Valid()
    ensures var (e, updated) := Receive(d, job.pseq % 4, ValuePacket(ts, job, []));
            !updated && e == TakeTime(d, ts).(valid := true)
  {
    hide Hash;
    var s := ValuePacket(ts, job, []);
    assert Stream(job, []) == [0];
    assert s[..3] == Le16(ts) + [d.hash[job.pseq % 4]] && s[3..] == [0];
    assert s[2] == s[..3][2] == d.hash[job.pseq % 4];
    assert s[0] == s[..3][0] && s[1] == s[..3][1];
    assert Le16(FromLe16(s[0], s[1])) == Le16(ts);
  }

  /** From any reachable state: the table in parts, then a value packet. */
  lemma TableThenValues(d: Dec, parts: seq<Byte>, size: Byte, ts: nat, job: Job, bits: seq<bool>)
    requires Guarded(d) && Transferable(job.fields, size) && Complete(job.fields, parts, size)
    requires job.Valid() && |bits| == |job.fields| - job.N() && ts < 0x1_0000
    requires job.fields != [] && Readable(job)
    ensures var d1 := HandleAll(d, PartMessages(job.fields, parts, size));
            var (e, updated) := Receive(d1, job.pseq % 4, ValuePacket(ts, job, bits));
            Delivered(d1, e, updated, job, bits)
  {
    hide Receive, Readable, HandleAll, Hash, ParseTable, Delivered, Transferred;
    TableTransferred(d, job.fields, parts, size);
    ValuesDelivered(HandleAll(d, PartMessages(job.fields, parts, size)), ts, job, bits);
  }

  // ---------- many packets under one table ----------

  datatype Sent = Sent(ts: nat, job: Job, bits: seq<bool>)

  ghost predicate Proper(p: Sent, fields: seq<Field>) {
    && p.job.Valid() && p.job.fields == fields && p.ts < 0x1_0000
    && |p.bits| == |fields| - p.job.N() && Readable(p.job)
  }

  /** What the slots hold after all packets, each on top of the one before. */
  ghost function MergedAll(ps: seq<Sent>, fields: seq<Field>, cells: seq<Cell>): (r: seq<Cell>)
    requires |cells| == |fields| && forall i :: 0 <= i < |ps| ==> Proper(ps[i], fields)
    ensures |r| == |fields|
    decreases |ps|
  {
    if ps == [] then cells
    else
      assert Proper(ps[0], fields);
      MergedAll(ps[1..], fields, Merged(ps[0].job, ps[0].bits, cells))
  }

  ghost function Packets(ps: seq<Sent>, fields: seq<Field>): (ms: seq<Message>)
    requires forall i :: 0 <= i < |ps| ==> Proper(ps[i], fields)
    ensures |ms| == |ps|
    decreases |ps|
  {
    if ps == [] then []
    else
      assert Proper(ps[0], fields);
      [Values(ps[0].job.pseq % 4, ValuePacket(ps[0].ts, ps[0].job, ps[0].bits))] + Packets(ps[1..], fields)
  }

  /** Under one table, however many packets and whatever their seq: the decoder keeps the table, stays
      valid, and its slots follow the sender's packet by packet. */
  lemma {:induction false} PacketsFollowed(d: Dec, ps: seq<Sent>, fields: seq<Field>)
    requires Transferred(d, fields) && fields != [] && forall i :: 0 <= i < |ps| ==> Proper(ps[i], fields)
    ensures var e := HandleAll(d, Packets(ps, fields));
            Transferred(e, fields) && e.cells[..e.cnt] == MergedAll(ps, fields, d.cells[..d.cnt])
    decreases |ps|
  {
    hide Receive, Merged, Hash, ParseTable, TableBytes, ValuePacket, Readable, Count;
    if ps != [] {
      var p := ps[0];
      assert Proper(p, fields);
      ValuesDelivered(d, p.ts, p.job, p.bits);
      var e := Receive(d, p.job.pseq % 4, ValuePacket(p.ts, p.job, p.bits)).0;
      PacketsFollowed(e, ps[1..], fields);
      assert Packets(ps, fields)[1..] == Packets(ps[1..], fields);
    }
  }
}
