/** Encoder and decoder over many packets: what the decoder shows and what the encoder remembers. */
module TelemetrySession {
  import opened Bytes
  import opened TelemetryStream
  import opened TelemetryFormat
  import opened TelemetryDecode
  import opened TelemetryState
  import opened TelemetryTransfer
  import opened TelemetryEncoder

  /** One packet: the slots marked since the last one, what pack_value() gives for all slots, the
      bitfields and the time. */
  datatype Round = Round(marks: seq<bool>, pseq: Byte, blocks: seq<seq<Byte>>, stack: seq<Raw>,
                         bits: seq<bool>, ts: nat)

  function WithMarks(c: Columns, marks: seq<bool>): (r: Columns)
    requires c.Wide() && |marks| == SLOTS_SIZE
    ensures r.Wide() && r.packed == c.packed && r.enforced == c.enforced
    ensures forall j :: 0 <= j < SLOTS_SIZE ==> r.upd[j] == (c.upd[j] || marks[j])
  {
    c.(upd := seq(SLOTS_SIZE, j requires 0 <= j < SLOTS_SIZE => c.upd[j] || marks[j]))
  }

  /** A table the encoder can hold. */
  ghost predicate IsTable(fields: seq<Field>) {
    0 < |fields| <= SLOTS_SIZE && Ordered(fields)
  }

  /** The round fits the table. */
  ghost predicate Fits(fields: seq<Field>, r: Round) {
    && |fields| <= SLOTS_SIZE && Packs(fields, r.blocks, r.stack) && |r.marks| == SLOTS_SIZE
    && |r.bits| == |fields| - FirstBit(fields) && r.ts < 0x1_0000
  }

  /** The columns as the loop over the slots finds them. */
  ghost function Prepared(fields: seq<Field>, c: Columns, r: Round): (c1: Columns)
    requires Fits(fields, r) && c.Wide()
    ensures c1.Wide()
  {
    Forced(WithMarks(c, r.marks), FirstBit(fields))
  }

  ghost function JobAt(fields: seq<Field>, c: Columns, r: Round): Job
    requires Fits(fields, r) && c.Wide()
  {
    JobOf(fields, r.pseq, Prepared(fields, c, r), r.blocks, r.stack)
  }

  ghost function Sender(fields: seq<Field>, c: Columns, r: Round): (c2: Columns)
    requires Fits(fields, r) && c.Wide()
    ensures c2.Wide()
  {
    Settled(JobAt(fields, c, r), Prepared(fields, c, r), r.stack)
  }

  lemma JobAtValid(fields: seq<Field>, c: Columns, r: Round)
    requires IsTable(fields) && Fits(fields, r) && c.Wide()
    ensures var job := JobAt(fields, c, r);
            job.Valid() && job.fields == fields && job.pseq == r.pseq && job.blocks == r.blocks
  {
    var c1 := Prepared(fields, c, r);
    JobValid(fields, r.pseq, c1.upd[..|fields|], c1.packed[..|fields|], r.blocks, r.stack);
  }

  /** The packet of this round can be read back; that depends on the sender alone. */
  ghost predicate ReadableRound(fields: seq<Field>, c: Columns, r: Round)
    requires IsTable(fields) && Fits(fields, r) && c.Wide()
  {
    JobAtValid(fields, c, r);
    Readable(JobAt(fields, c, r))
  }

  /** The decoder's side of the round. */
  ghost function Receiver(fields: seq<Field>, c: Columns, d: Dec, r: Round): Dec
    requires IsTable(fields) && Fits(fields, r) && c.Wide() && Guarded(d)
    ensures Guarded(Receiver(fields, c, d, r))
  {
    JobAtValid(fields, c, r);
    ReceiveGuarded(d, r.pseq % 4, ValuePacket(r.ts, JobAt(fields, c, r), r.bits));
    Receive(d, r.pseq % 4, ValuePacket(r.ts, JobAt(fields, c, r), r.bits)).0
  }

  // ---------- one slot ----------

  /** What a slot of this format shows when its packed value is raw. */
  function Shown(fmt: Byte, raw: Raw): Value {
    if fmt == FMT_U4 then Nib(raw[0] % 16) else Unpacked(fmt, raw[..Size(fmt)])
  }

  /** The decoder shows what the encoder remembers of slot j. */
  ghost predicate InSync(fields: seq<Field>, c: Columns, d: Dec, j: nat)
    requires c.Wide() && d.Shaped() && j < |fields| <= SLOTS_SIZE
  {
    d.cells[j].value == Shown(fields[j].fmt, c.packed[j])
  }

  /** It does, or the slot is marked and will be compared again when it is due. */
  ghost predicate Tracked(fields: seq<Field>, c: Columns, d: Dec, j: nat)
    requires c.Wide() && d.Shaped() && j < |fields| <= SLOTS_SIZE
  {
    InSync(fields, c, d, j) || c.upd[j]
  }

  /** The slot is due and marked, the decoder shows something else than the encoder remembers, and yet
      the new packed value is exactly the remembered one. */
  ghost predicate Missed(fields: seq<Field>, c: Columns, d: Dec, r: Round, j: nat)
    requires Fits(fields, r) && c.Wide() && d.Shaped() && j < |fields|
  {
    var c1 := Prepared(fields, c, r);
    && Due(fields[j], r.pseq) && c1.upd[j] && c1.packed[j] == RawOf(r.blocks[j], r.stack[j])
    && !InSync(fields, c1, d, j)
  }

  lemma ShownBlock(fmt: Byte, block: seq<Byte>, stack: Raw)
    requires |block| == Size(fmt) && Size(fmt) > 0
    ensures Shown(fmt, RawOf(block, stack)) ==
            if fmt == FMT_U4 then Nib(block[0] % 16) else Unpacked(fmt, block)
  {
    assert RawOf(block, stack)[..Size(fmt)] == block;
  }

  /** Enforcing always makes the memory look different from what the decoder shows. */
  lemma BumpShows(fmt: Byte, raw: Raw)
    requires Size(fmt) > 0
    ensures Shown(fmt, Bump(raw)) != Shown(fmt, raw)
  {
    assert Bump(raw)[0] != raw[0] && (Bump(raw)[0] % 16) != raw[0] % 16;
    assert raw[..Size(fmt)][0] == raw[0] && Bump(raw)[..Size(fmt)][0] == Bump(raw)[0];
  }

  /** One round, seen from slot j: sent or left alone on both sides. */
  lemma SlotRound(fields: seq<Field>, c: Columns, d: Dec, r: Round, j: nat)
    requires IsTable(fields) && Fits(fields, r) && c.Wide() && Transferred(d, fields) && j < FirstBit(fields)
    requires ReadableRound(fields, c, r)
    ensures var job, c1 := JobAt(fields, c, r), Prepared(fields, c, r);
            var c2, e := Sender(fields, c, r), Receiver(fields, c, d, r);
            && Transferred(e, fields)
            && (job.tx[j] <==> Due(fields[j], r.pseq) && c1.upd[j] && c1.packed[j] != RawOf(r.blocks[j], r.stack[j]))
            && (job.tx[j] ==> InSync(fields, c2, e, j))
            && (!job.tx[j] ==> e.cells[j] == d.cells[j] && c2.packed[j] == c1.packed[j])
            && c2.upd[j] == (c1.upd[j] && !Due(fields[j], r.pseq))
  {
    hide Receive, ValuePacket, Hash, TableBytes, ParseTable, Count, Bump, Zoned, Ordered, Forced, WithMarks;
    JobAtValid(fields, c, r);
    var job := JobAt(fields, c, r);
    ValuesDelivered(d, r.ts, job, r.bits);
    var e := Receiver(fields, c, d, r);
    assert e.cells[..e.cnt][j] == Merged(job, r.bits, d.cells[..d.cnt])[j];
    if job.tx[j] {
      assert Size(fields[j].fmt) > 0;
      ShownBlock(fields[j].fmt, r.blocks[j], r.stack[j]);
    }
  }

  lemma PreparedSlot(fields: seq<Field>, c: Columns, r: Round, j: nat)
    requires Fits(fields, r) && c.Wide() && j < |fields|
    ensures var c1 := Prepared(fields, c, r);
            && c1.upd[j] == (c.upd[j] || r.marks[j] || j == c.enforced)
            && c1.packed[j] == if j == c.enforced then Bump(c.packed[j]) else c.packed[j]
  {
    hide Bump;
  }

  /** A slot in step stays in step, with one exact exception: the slot whose turn it is to be enforced
      stays in step if and only if it is due and its new packed value is not the bumped one. */
  lemma SlotFollows(fields: seq<Field>, c: Columns, d: Dec, r: Round, j: nat)
    requires IsTable(fields) && Fits(fields, r) && c.Wide() && Transferred(d, fields) && j < FirstBit(fields)
    requires ReadableRound(fields, c, r)
    requires InSync(fields, c, d, j) && Size(fields[j].fmt) > 0
    ensures var c2, e := Sender(fields, c, r), Receiver(fields, c, d, r);
            && e.Shaped()
            && (InSync(fields, c2, e, j)
                <==> (j == c.enforced ==>
                        Due(fields[j], r.pseq) && RawOf(r.blocks[j], r.stack[j]) != Bump(c.packed[j])))
  {
    hide Receiver, Sender, Transferred, Prepared, JobAt, Bump, Due, Size, Shown, Ordered;
    SlotRound(fields, c, d, r, j);
    PreparedSlot(fields, c, r, j);
    BumpShows(fields[j].fmt, c.packed[j]);
  }

  /** A tracked slot, and any slot just marked or enforced, is tracked after the round if and only if it
      is not missed in it. */
  lemma SlotTracked(fields: seq<Field>, c: Columns, d: Dec, r: Round, j: nat)
    requires IsTable(fields) && Fits(fields, r) && c.Wide() && Transferred(d, fields) && j < FirstBit(fields)
    requires ReadableRound(fields, c, r)
    requires Tracked(fields, c, d, j) || r.marks[j] || j == c.enforced
    ensures var c2, e := Sender(fields, c, r), Receiver(fields, c, d, r);
            && Transferred(e, fields)
            && (Tracked(fields, c2, e, j) <==> !Missed(fields, c, d, r, j))
  {
    hide Receiver, Sender, Transferred, Prepared, JobAt, Bump, Due, Shown, Ordered, FirstBit;
    SlotRound(fields, c, d, r, j);
    PreparedSlot(fields, c, r, j);
  }

  /** What slot j shows if the decoder has the value packed in this round. */
  function Current(fields: seq<Field>, r: Round, j: nat): Value
    requires |r.blocks| == |fields| && j < |fields| && |r.blocks[j]| == Size(fields[j].fmt)
  {
    if fields[j].fmt == FMT_U4 then Nib(r.blocks[j][0] % 16) else Unpacked(fields[j].fmt, r.blocks[j])
  }

  /** Slot j is compared while the memory still holds what enforcing has made of it, and the new packed
      value is that very one. */
  ghost predicate Collides(fields: seq<Field>, c: Columns, r: Round, j: nat, bumped: bool)
    requires Fits(fields, r) && c.Wide() && j < |fields|
  {
    && (bumped || j == c.enforced) && Due(fields[j], r.pseq)
    && Prepared(fields, c, r).packed[j] == RawOf(r.blocks[j], r.stack[j])
  }

  /** The memory of slot j has been enforced and not been compared since. */
  predicate StaysBumped(fields: seq<Field>, c: Columns, r: Round, j: nat, bumped: bool)
    requires j < |fields|
  {
    (bumped || j == c.enforced) && !Due(fields[j], r.pseq)
  }

  /** The decoder shows what the encoder remembers, or the slot is enforced and will be compared. */
  ghost predicate Followed(fields: seq<Field>, c: Columns, d: Dec, j: nat, bumped: bool)
    requires c.Wide() && d.Shaped() && j < |fields| <= SLOTS_SIZE
  {
    if bumped then c.upd[j] else InSync(fields, c, d, j)
  }

  /** One round without a collision, whatever else is marked and whatever the decoder showed before. */
  lemma SlotFollowed(fields: seq<Field>, c: Columns, d: Dec, r: Round, j: nat, bumped: bool)
    requires IsTable(fields) && Fits(fields, r) && c.Wide() && Transferred(d, fields) && j < FirstBit(fields)
    requires ReadableRound(fields, c, r)
    requires j == c.enforced || Followed(fields, c, d, j, bumped)
    requires !Collides(fields, c, r, j, bumped)
    ensures var c2, e := Sender(fields, c, r), Receiver(fields, c, d, r);
            Transferred(e, fields) && Followed(fields, c2, e, j, StaysBumped(fields, c, r, j, bumped))
  {
    hide Receiver, Sender, Transferred, Prepared, JobAt, Bump, Due, Shown, Ordered, FirstBit, ReadableRound;
    SlotRound(fields, c, d, r, j);
    PreparedSlot(fields, c, r, j);
  }

  // ---------- a session ----------

  ghost predicate AllFit(fields: seq<Field>, rs: seq<Round>) {
    forall i :: 0 <= i < |rs| ==> Fits(fields, rs[i])
  }

  ghost function Session(fields: seq<Field>, c: Columns, d: Dec, rs: seq<Round>): (r: (Columns, Dec))
    requires IsTable(fields) && AllFit(fields, rs) && c.Wide() && Guarded(d)
    ensures r.0.Wide() && Guarded(r.1)
    decreases |rs|
  {
    if rs == [] then (c, d)
    else
      assert Fits(fields, rs[0]);
      Session(fields, Sender(fields, c, rs[0]), Receiver(fields, c, d, rs[0]), rs[1..])
  }

  ghost predicate AllReadable(fields: seq<Field>, c: Columns, rs: seq<Round>)
    requires IsTable(fields) && AllFit(fields, rs) && c.Wide()
    decreases |rs|
  {
    rs == []
    || (assert Fits(fields, rs[0]);
        ReadableRound(fields, c, rs[0]) && AllReadable(fields, Sender(fields, c, rs[0]), rs[1..]))
  }

  /** From round i on slot j is not missed. */
  ghost predicate NotMissed(fields: seq<Field>, c: Columns, d: Dec, rs: seq<Round>, i: nat, j: nat)
    requires IsTable(fields) && AllFit(fields, rs) && c.Wide() && Guarded(d) && j < |fields|
    decreases |rs|
  {
    rs == []
    || (assert Fits(fields, rs[0]);
        && (i == 0 ==> !Missed(fields, c, d, rs[0], j))
        && NotMissed(fields, Sender(fields, c, rs[0]), Receiver(fields, c, d, rs[0]), rs[1..],
                     if i == 0 then 0 else i - 1, j))
  }

  /** From round i on slot j does not collide; that depends on the sender alone. */
  ghost predicate NoCollision(fields: seq<Field>, c: Columns, rs: seq<Round>, i: nat, j: nat, bumped: bool)
    requires IsTable(fields) && AllFit(fields, rs) && c.Wide() && j < |fields|
    decreases |rs|
  {
    rs == []
    || (assert Fits(fields, rs[0]);
        && (i == 0 ==> !Collides(fields, c, rs[0], j, bumped))
        && NoCollision(fields, Sender(fields, c, rs[0]), rs[1..], if i == 0 then 0 else i - 1, j,
                       StaysBumped(fields, c, rs[0], j, bumped)))
  }

  /** Whether slot j has been enforced since it was last due. */
  ghost predicate BumpedAfter(fields: seq<Field>, c: Columns, rs: seq<Round>, j: nat, bumped: bool)
    requires IsTable(fields) && AllFit(fields, rs) && c.Wide() && j < |fields|
    decreases |rs|
  {
    if rs == [] then bumped
    else
      assert Fits(fields, rs[0]);
      BumpedAfter(fields, Sender(fields, c, rs[0]), rs[1..], j, StaysBumped(fields, c, rs[0], j, bumped))
  }

  lemma TransferredGuards(d: Dec, fields: seq<Field>)
    requires Transferred(d, fields)
    ensures Guarded(d) && d.Shaped()
  {
  }

  /** Whose turn it is after i rounds. */
  function WhoseTurn(k: nat, n: nat, i: nat): nat
    decreases i
  {
    if i == 0 then k else WhoseTurn(if k + 1 < n then k + 1 else 0, n, i - 1)
  }

  /** The first round in which slot j is enforced, if slot k is the first one. */
  function FirstTurn(k: nat, n: nat, j: nat): (i: nat)
    requires j < n
    ensures i <= n
  {
    if k <= j then j - k else if k < n then n - k + j else 1 + j
  }

  lemma {:induction false} TurnComes(k: nat, n: nat, j: nat)
    requires j < n
    ensures WhoseTurn(k, n, FirstTurn(k, n, j)) == j
    decreases FirstTurn(k, n, j)
  {
    if k != j {
      TurnComes(if k + 1 < n then k + 1 else 0, n, j);
    }
  }

  /** The parts of a session's first round and of the rest. */
  lemma SessionStep(fields: seq<Field>, c: Columns, d: Dec, rs: seq<Round>)
    requires IsTable(fields) && AllFit(fields, rs) && c.Wide() && Guarded(d) && rs != []
    ensures Fits(fields, rs[0]) && AllFit(fields, rs[1..])
    ensures var c2, e := Sender(fields, c, rs[0]), Receiver(fields, c, d, rs[0]);
            && Session(fields, c, d, rs) == Session(fields, c2, e, rs[1..])
            && c2.enforced == WhoseTurn(c.enforced, FirstBit(fields), 1)
  {
    hide Receiver, JobAt, FirstBit, Ordered;
    assert Fits(fields, rs[0]);
  }

  /** What is tracked stays tracked while it is not missed. */
  lemma {:induction false} StaysTracked(fields: seq<Field>, c: Columns, d: Dec, rs: seq<Round>, j: nat)
    requires IsTable(fields) && AllFit(fields, rs) && c.Wide() && Transferred(d, fields) && j < FirstBit(fields)
    requires AllReadable(fields, c, rs) && NotMissed(fields, c, d, rs, 0, j)
    requires Tracked(fields, c, d, j)
    ensures var (c2, e) := Session(fields, c, d, rs); Transferred(e, fields) && Tracked(fields, c2, e, j)
    decreases |rs|
  {
    hide Receiver, Sender, Transferred, Tracked, Missed, Ordered, FirstBit, ReadableRound, Session;
    TransferredGuards(d, fields);
    if rs != [] {
      SessionStep(fields, c, d, rs);
      SlotTracked(fields, c, d, rs[0], j);
      StaysTracked(fields, Sender(fields, c, rs[0]), Receiver(fields, c, d, rs[0]), rs[1..], j);
    } else {
      NoRounds(fields, c, d, rs);
    }
  }

  lemma NoRounds(fields: seq<Field>, c: Columns, d: Dec, rs: seq<Round>)
    requires IsTable(fields) && AllFit(fields, rs) && c.Wide() && Guarded(d) && rs == []
    ensures Session(fields, c, d, rs) == (c, d)
  {
  }

  /** Whatever the columns and the values at the decoder were: a slot enforced in round i and not missed
      from then on is tracked at the end. */
  lemma {:induction false} EnforcedTracked(fields: seq<Field>, c: Columns, d: Dec, rs: seq<Round>, i: nat, j: nat)
    requires IsTable(fields) && AllFit(fields, rs) && c.Wide() && Transferred(d, fields) && j < FirstBit(fields)
    requires AllReadable(fields, c, rs) && NotMissed(fields, c, d, rs, i, j)
    requires i < |rs| && WhoseTurn(c.enforced, FirstBit(fields), i) == j
    ensures var (c2, e) := Session(fields, c, d, rs); Transferred(e, fields) && Tracked(fields, c2, e, j)
    decreases |rs|
  {
    hide Receiver, Sender, Transferred, Tracked, Missed, Ordered, FirstBit, ReadableRound, Session;
    TransferredGuards(d, fields);
    SessionStep(fields, c, d, rs);
    SlotRound(fields, c, d, rs[0], j);
    var c2, e := Sender(fields, c, rs[0]), Receiver(fields, c, d, rs[0]);
    TransferredGuards(e, fields);
    if i == 0 {
      SlotTracked(fields, c, d, rs[0], j);
      StaysTracked(fields, c2, e, rs[1..], j);
    } else {
      EnforcedTracked(fields, c2, e, rs[1..], i - 1, j);
    }
  }

  /** What is followed stays followed while it does not collide. */
  lemma {:induction false} StaysFollowed(fields: seq<Field>, c: Columns, d: Dec, rs: seq<Round>, j: nat, bumped: bool)
    requires IsTable(fields) && AllFit(fields, rs) && c.Wide() && Transferred(d, fields) && j < FirstBit(fields)
    requires AllReadable(fields, c, rs) && NoCollision(fields, c, rs, 0, j, bumped)
    requires Followed(fields, c, d, j, bumped)
    ensures var (c2, e) := Session(fields, c, d, rs);
            Transferred(e, fields) && Followed(fields, c2, e, j, BumpedAfter(fields, c, rs, j, bumped))
    decreases |rs|
  {
    hide Receiver, Sender, Transferred, Followed, Collides, StaysBumped, Ordered, FirstBit, ReadableRound, Session;
    TransferredGuards(d, fields);
    if rs != [] {
      SessionStep(fields, c, d, rs);
      SlotFollowed(fields, c, d, rs[0], j, bumped);
      StaysFollowed(fields, Sender(fields, c, rs[0]), Receiver(fields, c, d, rs[0]), rs[1..], j,
                    StaysBumped(fields, c, rs[0], j, bumped));
    } else {
      NoRounds(fields, c, d, rs);
    }
  }

  /** Whatever the columns and the values at the decoder were: a slot enforced in round i that does not
      collide from then on is followed at the end. */
  lemma {:induction false} EnforcedFollowed(fields: seq<Field>, c: Columns, d: Dec, rs: seq<Round>, i: nat, j: nat,
                                            bumped: bool)
    requires IsTable(fields) && AllFit(fields, rs) && c.Wide() && Transferred(d, fields) && j < FirstBit(fields)
    requires AllReadable(fields, c, rs) && NoCollision(fields, c, rs, i, j, bumped)
    requires i < |rs| && WhoseTurn(c.enforced, FirstBit(fields), i) == j
    ensures var (c2, e) := Session(fields, c, d, rs);
            Transferred(e, fields) && Followed(fields, c2, e, j, BumpedAfter(fields, c, rs, j, bumped))
    decreases |rs|
  {
    hide Receiver, Sender, Transferred, Followed, Collides, StaysBumped, Ordered, FirstBit, ReadableRound, Session;
    TransferredGuards(d, fields);
    SessionStep(fields, c, d, rs);
    SlotRound(fields, c, d, rs[0], j);
    var c2, e := Sender(fields, c, rs[0]), Receiver(fields, c, d, rs[0]);
    TransferredGuards(e, fields);
    var b := StaysBumped(fields, c, rs[0], j, bumped);
    if i == 0 {
      SlotFollowed(fields, c, d, rs[0], j, bumped);
      StaysFollowed(fields, c2, e, rs[1..], j, b);
    } else {
      EnforcedFollowed(fields, c2, e, rs[1..], i - 1, j, b);
    }
  }

  /** A slot that is due in the last round has been compared, and if it was marked, the encoder remembers
      the value packed in that round. */
  lemma {:induction false} LastRound(fields: seq<Field>, c: Columns, d: Dec, rs: seq<Round>, j: nat, bumped: bool)
    requires IsTable(fields) && AllFit(fields, rs) && c.Wide() && Guarded(d) && j < FirstBit(fields) && rs != []
    requires Due(fields[j], rs[|rs| - 1].pseq)
    ensures Fits(fields, rs[|rs| - 1])
    ensures !BumpedAfter(fields, c, rs, j, bumped)
    ensures var r := rs[|rs| - 1];
            r.marks[j] ==> Session(fields, c, d, rs).0.packed[j] == RawOf(r.blocks[j], r.stack[j])
    decreases |rs|
  {
    hide Receiver, Sender, Ordered, FirstBit, Due, Session;
    SessionStep(fields, c, d, rs);
    var c2, e := Sender(fields, c, rs[0]), Receiver(fields, c, d, rs[0]);
    if |rs| > 1 {
      assert rs[1..][|rs[1..]| - 1] == rs[|rs| - 1];
      LastRound(fields, c2, e, rs[1..], j, StaysBumped(fields, c, rs[0], j, bumped));
    } else {
      NoRounds(fields, c2, e, rs[1..]);
      ComparedRound(fields, c, rs[0], j);
    }
  }

  lemma ComparedRound(fields: seq<Field>, c: Columns, r: Round, j: nat)
    requires IsTable(fields) && Fits(fields, r) && c.Wide() && j < FirstBit(fields)
    requires Due(fields[j], r.pseq)
    ensures r.marks[j] ==> Sender(fields, c, r).packed[j] == RawOf(r.blocks[j], r.stack[j])
  {
    hide Ordered, Bump, Due, FirstBit;
  }

  /** The value packed in a round, as a slot shows it. */
  lemma ShownCurrent(fields: seq<Field>, r: Round, j: nat)
    requires Fits(fields, r) && j < |fields|
    ensures Shown(fields[j].fmt, RawOf(r.blocks[j], r.stack[j])) == Current(fields, r, j)
  {
    var fmt := fields[j].fmt;
    assert RawOf(r.blocks[j], r.stack[j])[..Size(fmt)] == r.blocks[j];
  }

  /** Under the sender's table, from any columns and any values at the decoder, after more readable packets
      than there are slots before the bitfields: every slot that is not missed from its first turn on
      shows at the decoder what the encoder remembers, or is marked and will be compared again. */
  lemma EverySlotTracked(fields: seq<Field>, c: Columns, d: Dec, rs: seq<Round>)
    requires IsTable(fields) && AllFit(fields, rs) && c.Wide() && Transferred(d, fields)
    requires AllReadable(fields, c, rs) && |rs| > FirstBit(fields) > 0
    ensures var (c2, e) := Session(fields, c, d, rs);
            && Transferred(e, fields)
            && forall j :: 0 <= j < FirstBit(fields)
                           && NotMissed(fields, c, d, rs, FirstTurn(c.enforced, FirstBit(fields), j), j) ==>
                 Tracked(fields, c2, e, j)
  {
    hide Transferred, Tracked, FirstBit, NotMissed, Session, AllFit, Ordered, AllReadable;
    TransferredGuards(d, fields);
    StaysTransferred(fields, c, d, rs);
    var (c2, e) := Session(fields, c, d, rs);
    var n := FirstBit(fields);
    forall j | 0 <= j < n && NotMissed(fields, c, d, rs, FirstTurn(c.enforced, n, j), j)
      ensures Tracked(fields, c2, e, j)
    {
      TurnComes(c.enforced, n, j);
      EnforcedTracked(fields, c, d, rs, FirstTurn(c.enforced, n, j), j);
    }
  }

  lemma {:induction false} StaysTransferred(fields: seq<Field>, c: Columns, d: Dec, rs: seq<Round>)
    requires IsTable(fields) && AllFit(fields, rs) && c.Wide() && Transferred(d, fields) && FirstBit(fields) > 0
    requires AllReadable(fields, c, rs)
    ensures Transferred(Session(fields, c, d, rs).1, fields)
    decreases |rs|
  {
    hide Receiver, Sender, Transferred, Ordered, FirstBit, ReadableRound, Session;
    TransferredGuards(d, fields);
    if rs != [] {
      SessionStep(fields, c, d, rs);
      SlotRound(fields, c, d, rs[0], 0);
      var e := Receiver(fields, c, d, rs[0]);
      TransferredGuards(e, fields);
      StaysTransferred(fields, Sender(fields, c, rs[0]), e, rs[1..]);
    } else {
      NoRounds(fields, c, d, rs);
    }
  }

  /** The same with a condition on the sender alone, and with more to show for it: a slot that does not
      collide from its first turn on and is due in the last packet shows what the encoder remembers, and
      if it was marked for that packet, the value that was packed for it. */
  lemma EverySlotShown(fields: seq<Field>, c: Columns, d: Dec, rs: seq<Round>)
    requires IsTable(fields) && AllFit(fields, rs) && c.Wide() && Transferred(d, fields)
    requires AllReadable(fields, c, rs) && |rs| > FirstBit(fields) > 0
    ensures Fits(fields, rs[|rs| - 1])
    ensures var (c2, e) := Session(fields, c, d, rs);
            var r := rs[|rs| - 1];
            && Transferred(e, fields)
            && forall j :: 0 <= j < FirstBit(fields) && Due(fields[j], r.pseq)
                           && NoCollision(fields, c, rs, FirstTurn(c.enforced, FirstBit(fields), j), j, false) ==>
                 && InSync(fields, c2, e, j)
                 && (r.marks[j] ==> e.cells[j].value == Current(fields, r, j))
  {
    hide Transferred, Followed, FirstBit, NoCollision, BumpedAfter, Session, Ordered, AllReadable, Due, Shown, Current;
    TransferredGuards(d, fields);
    StaysTransferred(fields, c, d, rs);
    var (c2, e) := Session(fields, c, d, rs);
    var n, r := FirstBit(fields), rs[|rs| - 1];
    forall j | 0 <= j < n && Due(fields[j], r.pseq)
               && NoCollision(fields, c, rs, FirstTurn(c.enforced, n, j), j, false)
      ensures InSync(fields, c2, e, j) && (r.marks[j] ==> e.cells[j].value == Current(fields, r, j))
    {
      OneSlotShown(fields, c, d, rs, j);
    }
  }

  lemma OneSlotShown(fields: seq<Field>, c: Columns, d: Dec, rs: seq<Round>, j: nat)
    requires IsTable(fields) && AllFit(fields, rs) && c.Wide() && Transferred(d, fields)
    requires AllReadable(fields, c, rs) && |rs| > FirstBit(fields) > j
    requires Due(fields[j], rs[|rs| - 1].pseq)
    requires NoCollision(fields, c, rs, FirstTurn(c.enforced, FirstBit(fields), j), j, false)
    ensures Fits(fields, rs[|rs| - 1])
    ensures var (c2, e) := Session(fields, c, d, rs);
            var r := rs[|rs| - 1];
            && InSync(fields, c2, e, j)
            && (r.marks[j] ==> e.cells[j].value == Current(fields, r, j))
  {
    hide Transferred, FirstBit, NoCollision, BumpedAfter, Session, Ordered, AllReadable, Due, Shown, Current;
    TransferredGuards(d, fields);
    TurnComes(c.enforced, FirstBit(fields), j);
    EnforcedFollowed(fields, c, d, rs, FirstTurn(c.enforced, FirstBit(fields), j), j, false);
    LastRound(fields, c, d, rs, j, false);
    ShownCurrent(fields, rs[|rs| - 1], j);
  }

  // ---------- inputs at which the exceptions occur ----------

  // Each of them is the first packet of an encoder that has just been given its table.

  /** A first round in which every slot has been marked. */
  ghost predicate FirstRound(fields: seq<Field>, c: Columns, r: Round) {
    && IsTable(fields) && Fits(fields, r) && c.Wide() && c.Blank(|fields|) && c.enforced == 0
    && forall j :: 0 <= j < |fields| ==> r.marks[j]
  }

  lemma BlankPrepared(fields: seq<Field>, c: Columns, r: Round, j: nat)
    requires FirstRound(fields, c, r) && j < |fields|
    ensures var c1 := Prepared(fields, c, r);
            c1.upd[j] && c1.packed[j] == if j == 0 then [1, 1, 1, 1] else [0, 0, 0, 0]
  {
    assert Bump([0, 0, 0, 0]) == [1, 1, 1, 1];
    hide Bump;
    PreparedSlot(fields, c, r, j);
  }

  /** A field of 32 bits whose value becomes 0x01010101. */
  function OneWord(): seq<Field> {
    [Field(1, 0, SEQ_ALWAYS, 3)]
  }

  /** The slot is enforced, due, marked and changed, and yet it is neither sent nor marked any more. */
  lemma ChangedButNotSent(c: Columns, d: Dec, r: Round)
    requires FirstRound(OneWord(), c, r) && r.blocks == [[1, 1, 1, 1]] && Transferred(d, OneWord())
    ensures var job := JobAt(OneWord(), c, r);
            var c2, e := Sender(OneWord(), c, r), Receiver(OneWord(), c, d, r);
            && job.tx == [false] && RawOf(r.blocks[0], r.stack[0]) != c.packed[0]
            && Transferred(e, OneWord()) && e.cells[0] == d.cells[0] && !c2.upd[0]
  {
    hide Transferred, Receiver, Prepared, Sender, Bump, Ordered;
    JobAtValid(OneWord(), c, r);
    var job := JobAt(OneWord(), c, r);
    BlankPrepared(OneWord(), c, r, 0);
    assert RawOf(r.blocks[0], r.stack[0]) == [1, 1, 1, 1];
    assert job.tx == [false];
    SlotRound(OneWord(), c, d, r, 0);
  }

  function TwoNibbles(): seq<Field> {
    [Field(1, 0, SEQ_ALWAYS, FMT_U4), Field(2, 0, SEQ_ALWAYS, FMT_U4)]
  }

  lemma TwoNibblesSent(c: Columns, r: Round)
    requires FirstRound(TwoNibbles(), c, r) && r.blocks == [[2], [3]]
    ensures var job := JobAt(TwoNibbles(), c, r); job.Valid() && job.tx == [true, true]
  {
    hide Prepared, Bump, Ordered;
    JobAtValid(TwoNibbles(), c, r);
    BlankPrepared(TwoNibbles(), c, r, 0);
    BlankPrepared(TwoNibbles(), c, r, 1);
    assert RawOf([2], r.stack[0])[0] == 2 && RawOf([3], r.stack[1])[0] == 3;
  }

  lemma EndsInSecond(job: Job)
    requires job.Valid() && job.fields == TwoNibbles() && job.tx == [true, true]
    ensures job.N() == 2 && EndsSharedAt(job, 0)
  {
    assert Count(job, 2) == 0 && Count(job, 1) == 1;
    assert EndsShared(job, 1, 6, true);
    assert EndsShared(job, 0, 7, false);
    assert FirstTx(job, 0) == 0 && Code(job, 0, 7) != 0;
  }

  /** Two four-bit fields with values other than zero: the second one shares the only data byte, which has
      been read by then. The packet is rejected and the decoder drops its table. */
  lemma TwoNibblesRejected(c: Columns, d: Dec, r: Round)
    requires FirstRound(TwoNibbles(), c, r) && r.blocks == [[2], [3]] && Transferred(d, TwoNibbles())
    ensures var job := JobAt(TwoNibbles(), c, r);
            && job.Valid() && job.N() == 2 && d.Shaped() && d.cnt == 2
            && Decode(TwoNibbles(), r.pseq, Stream(job, []), d.cells[..2]) == Rejected
            && Receiver(TwoNibbles(), c, d, r).cnt == 0
  {
    hide JobAt, EndsSharedAt, Receive, Stream, Prepared, Decode, Transferred, Bump, Ordered, Receiver, Count, Code;
    TwoNibblesSent(c, r);
    JobAtValid(TwoNibbles(), c, r);
    var job := JobAt(TwoNibbles(), c, r);
    EndsInSecond(job);
    Unreadable(TwoNibbles(), c, d, r, job);
  }

  /** What an unreadable packet of a table without bitfields does. */
  lemma Unreadable(fields: seq<Field>, c: Columns, d: Dec, r: Round, job: Job)
    requires IsTable(fields) && Fits(fields, r) && c.Wide() && Transferred(d, fields) && FirstBit(fields) == |fields|
    requires job == JobAt(fields, c, r) && job.Valid() && !Readable(job)
    ensures d.Shaped() && d.cnt == |fields|
    ensures Decode(fields, r.pseq, Stream(job, []), d.cells[..|fields|]) == Rejected
    ensures Receiver(fields, c, d, r).cnt == 0
  {
    hide Receive, ValuePacket, Hash, TableBytes, ParseTable, Ordered, FirstBit, Prepared, Stream, Decode, AllSized,
         EndsSharedAt;
    JobAtValid(fields, c, r);
    assert r.bits == [];
    RoundTrip(job, [], d.cells[..|fields|]);
    ValuesDelivered(d, r.ts, job, r.bits);
  }

  /** A field whose format has no size. */
  function NoFormat(): seq<Field> {
    [Field(1, 0, SEQ_ALWAYS, 0)]
  }

  /** The compared word is whatever the stack holds; if that is not what enforcing has put into the
      memory, the slot is sent without data, and the decoder drops its table. */
  lemma NoFormatRejected(c: Columns, d: Dec, r: Round)
    requires FirstRound(NoFormat(), c, r) && Transferred(d, NoFormat()) && r.stack[0] != [1, 1, 1, 1]
    ensures var job := JobAt(NoFormat(), c, r);
            && job.Valid() && job.N() == 1 && job.tx == [true] && d.Shaped() && d.cnt == 1
            && Decode(NoFormat(), r.pseq, Stream(job, []), d.cells[..1]) == Rejected
            && Receiver(NoFormat(), c, d, r).cnt == 0
  {
    hide EndsSharedAt, Receive, Stream, Prepared, Decode, Transferred, Bump, Ordered, Receiver;
    JobAtValid(NoFormat(), c, r);
    var job := JobAt(NoFormat(), c, r);
    BlankPrepared(NoFormat(), c, r, 0);
    assert r.blocks[0] == [] && RawOf([], r.stack[0]) == r.stack[0];
    assert job.tx == [true];
    assert !AllSized(job, 0);
    Unreadable(NoFormat(), c, d, r, job);
  }
}
