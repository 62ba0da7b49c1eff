/** The decoder's state as a value: the format table received in parts, the hash that guards it, and
    what each kind of packet does to them. */
module TelemetryState {
  import opened Bytes
  import opened TelemetryStream
  import opened TelemetryFormat
  import opened TelemetryDecode

  const TABLE_BYTES: nat := 720
  const NO_HASH: seq<Byte> := [0, 0, 0, 0]

  /** raw is the memory of the field table; hashValid counts the hash bytes taken as confirmed. */
  datatype Dec = Dec(raw: seq<Byte>, cells: seq<Cell>, cnt: nat, hash: seq<Byte>, hashValid: nat,
                     valid: bool, ts: nat, timestamp: nat)
  {
    /** What the class guarantees of its storage. */
    predicate Shaped() {
      |raw| == TABLE_BYTES && |cells| == SLOTS_SIZE && |hash| == 4 && cnt <= SLOTS_SIZE
    }

    function Fields(): (fields: seq<Field>)
      requires Shaped()
      ensures |fields| == cnt
    {
      ParseTable(raw, cnt)
    }
  }

  const BLANK: Cell := Cell(Unset, false)

  function BlankCells(): (cells: seq<Cell>)
    ensures |cells| == SLOTS_SIZE
  {
    seq(SLOTS_SIZE, _ => BLANK)
  }

  function Reset(d: Dec, resetHash: bool): Dec {
    var e := if resetHash then d.(hash := NO_HASH, hashValid := 0) else d;
    e.(cnt := 0, valid := false, cells := BlankCells())
  }

  // ---------- a value packet ----------

  /** The packet's seq selects one byte of the 32-bit hash; any change of a byte already known drops
      everything known so far. */
  function TakeFeed(d: Dec, pseq: Seq2, feed: Byte): Dec
    requires d.Shaped()
  {
    if d.hash[pseq] != feed then
      var e := if d.hashValid > 0 || d.hash[pseq] != 0 then Reset(d, true) else d;
      e.(hash := e.hash[pseq := feed], hashValid := e.hashValid + 1)
    else if d.hashValid != 4 then d.(hashValid := d.hashValid + 1)
    else d
  }

  /** The packet's 16-bit time in steps of 20 ms; no step at all counts as a whole turn. */
  function TakeTime(d: Dec, ts: nat): Dec
    requires ts < 0x1_0000
  {
    var dts := (ts - d.ts) % 0x1_0000;
    var steps := if dts == 0 then 0x1_0000 else dts;
    d.(ts := ts, timestamp := d.timestamp + 20 * steps)
  }

  function TakeValues(d: Dec, pseq: Seq2, s: seq<Byte>): (Dec, bool)
    requires d.Shaped()
  {
    match Decode(d.Fields(), pseq, s, d.cells[..d.cnt])
    case Ignored => (d, false)
    case Rejected => (Reset(d, true), false)
    case Accepted(updated, cells) => (d.(cells := cells + d.cells[d.cnt..]), updated)
  }

  function Receive(d: Dec, pseq: Seq2, s: seq<Byte>): (Dec, bool)
    requires d.Shaped()
  {
    if |s| < 3 then (d, false)
    else
      var e := TakeTime(TakeFeed(d, pseq, s[2]), FromLe16(s[0], s[1]));
      var rest := s[3..];
      if e.hashValid == 4 && e.cnt > 0 then TakeValues(e.(valid := true), pseq, rest)
      else if e.hashValid == 4 && rest == [0] then (e.(valid := true), false)
      else (e.(valid := false), false)
  }

  // ---------- a format message ----------

  function CheckHash(d: Dec, sz: nat): (Dec, bool)
    requires d.Shaped() && sz <= TABLE_BYTES
  {
    if d.hashValid != 4 || Hash(d.raw[..sz]) != d.hash then (d, false)
    else (d.(cnt := sz / FIELD_BYTES, valid := true), true)
  }

  /** The block is in place; a final one may complete the table, any one may spoil the current one. */
  function AfterBlock(d: Dec, end: nat, isFinal: bool): (Dec, bool)
    requires d.Shaped() && end <= TABLE_BYTES
  {
    if isFinal && end % FIELD_BYTES != 0 then (Reset(d, true), false)
    else if isFinal && CheckHash(d, end).1 then (CheckHash(d, end).0, true)
    else if d.cnt == 0 then (d, true)
    else if CheckHash(d, FIELD_BYTES * d.cnt).1 then (CheckHash(d, FIELD_BYTES * d.cnt).0, true)
    else (Reset(d, false), true)
  }

  function TakeHash(d: Dec, hash: seq<Byte>): Dec
    requires d.Shaped() && |hash| == 4
  {
    var e := if hash != d.hash then Reset(d, true) else d;
    e.(hash := hash, hashValid := 4)
  }

  /** A message whose header is in order. */
  function TakeBlock(d: Dec, part: Byte, pcnt: Byte, size: Byte, hash: seq<Byte>, block: seq<Byte>): (Dec, bool)
    requires d.Shaped() && |hash| == 4
  {
    if part != 0 && hash != d.hash then (Reset(d, true), false)
    else
      var e := if part == 0 then TakeHash(d, hash) else d;
      var pos := Pos(part, size);
      var isFinal := part as int + 1 == pcnt || (part == 0 && pcnt == 0);
      if (if isFinal then |block| > size else |block| != size) || pos + |block| > TABLE_BYTES then
        (Reset(e, true), false)
      else
        AfterBlock(e.(raw := e.raw[..pos] + block + e.raw[pos + |block|..]), pos + |block|, isFinal)
  }

  function Format(d: Dec, s: seq<Byte>): (Dec, bool)
    requires d.Shaped()
  {
    if |s| < 8 || s[0] != FMT_VERSION || s[3] == 0 then (Reset(d, true), false)
    else TakeBlock(d, s[1], s[2], s[3], s[4..8], s[8..])
  }

  // ---------- the invariant ----------

  /** A table is in use only under a complete hash that is the hash of exactly that table. */
  ghost predicate Guarded(d: Dec) {
    && d.Shaped() && d.hashValid <= 4
    && (d.cnt > 0 ==> d.hashValid == 4 && d.hash == Hash(d.raw[..FIELD_BYTES * d.cnt]))
    && (d.valid ==> d.hashValid == 4)
    && d.ts < 0x1_0000
  }

  /** The first reset establishes the invariant whatever the memory held. */
  lemma ResetGuards(d: Dec)
    requires d.Shaped() && d.ts < 0x1_0000
    ensures Guarded(Reset(d, true))
  {
  }

  lemma FeedGuarded(d: Dec, pseq: Seq2, feed: Byte)
    requires Guarded(d)
    ensures Guarded(TakeFeed(d, pseq, feed))
  {
  }

  lemma ValuesGuarded(d: Dec, pseq: Seq2, s: seq<Byte>)
    requires Guarded(d)
    ensures Guarded(TakeValues(d, pseq, s).0)
  {
    hide Decode, Hash, ParseTable;
  }

  lemma ReceiveGuarded(d: Dec, pseq: Seq2, s: seq<Byte>)
    requires Guarded(d)
    ensures Guarded(Receive(d, pseq, s).0)
  {
    hide Decode, Hash, ParseTable, TakeFeed, TakeValues;
    if |s| >= 3 {
      FeedGuarded(d, pseq, s[2]);
      var e := TakeTime(TakeFeed(d, pseq, s[2]), FromLe16(s[0], s[1]));
      if e.hashValid == 4 && e.cnt > 0 {
        ValuesGuarded(e.(valid := true), pseq, s[3..]);
      }
    }
  }

  lemma BlockGuarded(d: Dec, end: nat, isFinal: bool)
    requires d.Shaped() && end <= TABLE_BYTES && d.hashValid <= 4 && d.ts < 0x1_0000
    requires d.cnt > 0 || d.valid ==> d.hashValid == 4
    ensures Guarded(AfterBlock(d, end, isFinal).0)
  {
    hide Hash;
  }

  lemma TakeBlockGuarded(d: Dec, part: Byte, pcnt: Byte, size: Byte, hash: seq<Byte>, block: seq<Byte>)
    requires Guarded(d) && |hash| == 4
    ensures Guarded(TakeBlock(d, part, pcnt, size, hash, block).0)
  {
    hide Hash, AfterBlock;
    var e := if part == 0 then TakeHash(d, hash) else d;
    var pos := Pos(part, size);
    if (part == 0 || hash == d.hash) && pos + |block| <= TABLE_BYTES {
      var isFinal := part as int + 1 == pcnt || (part == 0 && pcnt == 0);
      BlockGuarded(e.(raw := e.raw[..pos] + block + e.raw[pos + |block|..]), pos + |block|, isFinal);
    }
  }

  lemma FormatGuarded(d: Dec, s: seq<Byte>)
    requires Guarded(d)
    ensures Guarded(Format(d, s).0)
  {
    hide Hash, TakeBlock;
    if |s| >= 8 {
      TakeBlockGuarded(d, s[1], s[2], s[3], s[4..8], s[8..]);
    }
  }

  datatype Message = Values(pseq: Seq2, s: seq<Byte>) | Table(s: seq<Byte>)

  function Handle(d: Dec, m: Message): Dec
    requires d.Shaped()
  {
    match m
    case Values(pseq, s) => Receive(d, pseq, s).0
    case Table(s) => Format(d, s).0
  }

  ghost function HandleAll(d: Dec, ms: seq<Message>): Dec
    requires Guarded(d)
    ensures Guarded(HandleAll(d, ms))
    decreases |ms|
  {
    if ms == [] then d
    else
      var e := Handle(d, ms[0]);
      assert Guarded(e) by {
        if ms[0].Values? {
          ReceiveGuarded(d, ms[0].pseq, ms[0].s);
        } else {
          FormatGuarded(d, ms[0].s);
        }
      }
      HandleAll(e, ms[1..])
  }

  // ---------- another sender ----------

  /** A value packet never brings a table; it keeps the one in use only by repeating its hash byte. */
  lemma ReceiveKeeps(d: Dec, pseq: Seq2, s: seq<Byte>)
    requires Guarded(d) && |s| >= 3
    ensures var e := Receive(d, pseq, s).0;
            && Guarded(e)
            && (e.cnt > 0 ==> e.cnt == d.cnt && e.raw == d.raw && e.hash == d.hash && s[2] == d.hash[pseq])
  {
    hide Decode, Hash, ParseTable;
    ReceiveGuarded(d, pseq, s);
  }

  predicate Seen(ms: seq<Message>, q: Seq2) {
    exists i :: 0 <= i < |ms| && ms[i].Values? && ms[i].pseq == q
  }

  ghost predicate SentUnder(m: Message, hash: seq<Byte>)
    requires |hash| == 4
  {
    m.Values? && |m.s| >= 3 && m.s[2] == hash[m.pseq]
  }

  lemma {:induction false} HashRepeated(d: Dec, ms: seq<Message>, hash: seq<Byte>)
    requires Guarded(d) && |hash| == 4 && forall i :: 0 <= i < |ms| ==> SentUnder(ms[i], hash)
    ensures HandleAll(d, ms).cnt > 0 ==>
              d.cnt > 0 && forall i :: 0 <= i < |ms| && ms[i].Values? ==> d.hash[ms[i].pseq] == hash[ms[i].pseq]
    decreases |ms|
  {
    if ms != [] {
      assert SentUnder(ms[0], hash);
      ReceiveKeeps(d, ms[0].pseq, ms[0].s);
      assert forall i :: 0 <= i < |ms[1..]| ==> SentUnder(ms[1..][i], hash);
      HashRepeated(Handle(d, ms[0]), ms[1..], hash);
      if HandleAll(d, ms).cnt > 0 {
        forall i | 0 <= i < |ms| && ms[i].Values? ensures d.hash[ms[i].pseq] == hash[ms[i].pseq] {
          if i > 0 {
            assert ms[i] == ms[1..][i - 1];
          }
        }
      }
    }
  }

  /** Packets of a sender with a different hash, at least one of each seq, in any order and number,
      leave the decoder without a table. */
  lemma DifferentSender(d: Dec, ms: seq<Message>, hash: seq<Byte>)
    requires Guarded(d) && |hash| == 4 && hash != d.hash
    requires forall i :: 0 <= i < |ms| ==> SentUnder(ms[i], hash)
    requires forall q: Seq2 :: Seen(ms, q)
    ensures HandleAll(d, ms).cnt == 0
  {
    HashRepeated(d, ms, hash);
    if HandleAll(d, ms).cnt > 0 {
      forall q: Seq2 ensures d.hash[q] == hash[q] {
        assert Seen(ms, q);
        var i :| 0 <= i < |ms| && ms[i].Values? && ms[i].pseq == q;
      }
    }
  }

  // ---------- what value packets alone can confirm ----------

  /** At most one byte of the hash is known, and none while nothing is confirmed. */
  ghost predicate Scant(d: Dec) {
    && d.Shaped()
    && (forall q: Seq2, r: Seq2 :: q != r ==> d.hash[q] == 0 || d.hash[r] == 0)
    && (d.hashValid == 0 ==> d.hash == NO_HASH)
  }

  lemma FeedScant(d: Dec, pseq: Seq2, feed: Byte)
    requires Scant(d)
    ensures Scant(TakeFeed(d, pseq, feed))
  {
    var e := TakeFeed(d, pseq, feed);
    if d.hash[pseq] != feed && d.hashValid == 0 && d.hash[pseq] == 0 {
      assert d.hash == NO_HASH;
    }
    assert forall r: Seq2 :: r != pseq && d.hash[pseq] != feed ==> e.hash[r] == 0;
  }

  lemma ReceiveScant(d: Dec, pseq: Seq2, s: seq<Byte>)
    requires Scant(d)
    ensures Scant(Receive(d, pseq, s).0)
  {
    hide Decode, Hash, ParseTable, TakeFeed;
    if |s| >= 3 {
      FeedScant(d, pseq, s[2]);
      assert forall r: Seq2 :: NO_HASH[r] == 0;
    }
  }

  /** From a scant state value packets never assemble a hash with two non-zero bytes. */
  lemma {:induction false} StreamNeverConfirms(d: Dec, ms: seq<Message>, hash: seq<Byte>, q: Seq2, r: Seq2)
    requires Guarded(d) && Scant(d) && forall i :: 0 <= i < |ms| ==> ms[i].Values?
    requires |hash| == 4 && q != r && hash[q] != 0 && hash[r] != 0
    ensures HandleAll(d, ms).hash != hash
    decreases |ms|
  {
    if ms != [] {
      ReceiveGuarded(d, ms[0].pseq, ms[0].s);
      ReceiveScant(d, ms[0].pseq, ms[0].s);
      StreamNeverConfirms(Handle(d, ms[0]), ms[1..], hash, q, r);
    }
  }

  lemma ResetIsScant(d: Dec)
    requires d.Shaped()
    ensures Scant(Reset(d, true))
  {
    assert forall r: Seq2 :: NO_HASH[r] == 0;
  }

  /** A hash with no byte but one that is not zero is confirmed by four packets in sequence that begin
      with that byte. */
  lemma FourPacketsConfirm(d: Dec, ms: seq<Message>, hash: seq<Byte>, q: Seq2)
    requires Guarded(d) && |hash| == 4 && forall r: Seq2 :: r != q ==> hash[r] == 0
    requires |ms| == 4 && forall i :: 0 <= i < 4 ==> SentUnder(ms[i], hash) && ms[i].pseq == (q + i) % 4
    ensures var e := HandleAll(Reset(d, true), ms);
            e.hash == hash && e.hashValid == 4
  {
    hide Decode, Hash, ParseTable, HandleAll, Receive, Format;
    var d0 := Reset(d, true);
    assert SentUnder(ms[0], hash) && SentUnder(ms[1], hash) && SentUnder(ms[2], hash) && SentUnder(ms[3], hash);
    var d1 := Handle(d0, ms[0]);
    FirstFeed(d0, ms[0].pseq, ms[0].s, hash);
    RepeatedFeed(d1, ms[1].pseq, ms[1].s, hash);
    var d2 := Handle(d1, ms[1]);
    RepeatedFeed(d2, ms[2].pseq, ms[2].s, hash);
    var d3 := Handle(d2, ms[2]);
    RepeatedFeed(d3, ms[3].pseq, ms[3].s, hash);
    var d4 := Handle(d3, ms[3]);
    FourHandled(d0, ms);
  }

  predicate OnlyValues(ms: seq<Message>) {
    forall i :: 0 <= i < |ms| ==> ms[i].Values?
  }

  /** Value packets alone bring the decoder, reset before, to this complete hash. */
  ghost predicate Assembles(d: Dec, ms: seq<Message>, hash: seq<Byte>)
    requires Guarded(d)
  {
    OnlyValues(ms) && var e := HandleAll(Reset(d, true), ms); e.hash == hash && e.hashValid == 4
  }

  predicate OneByteAtMost(hash: seq<Byte>)
    requires |hash| == 4
  {
    forall q: Seq2, r: Seq2 :: q != r ==> hash[q] == 0 || hash[r] == 0
  }

  /** Four packets in sequence, the first one selecting byte q of the hash. */
  function FourPackets(hash: seq<Byte>, q: Seq2): (ms: seq<Message>)
    requires |hash| == 4
    ensures |ms| == 4 && forall i :: 0 <= i < 4 ==> ms[i] == Values((q + i) % 4, [0, 0, hash[(q + i) % 4]])
  {
    seq(4, i requires 0 <= i < 4 => Values((q + i) % 4, [0, 0, hash[(q + i) % 4]]))
  }

  /** After a reset, value packets alone can confirm a hash if and only if at most one of its bytes is
      not zero: every new byte that differs drops the bytes before it. */
  lemma StreamConfirms(d: Dec, hash: seq<Byte>)
    requires Guarded(d) && |hash| == 4
    ensures (exists ms :: Assembles(d, ms, hash)) <==> OneByteAtMost(hash)
  {
    hide HandleAll, Hash, Reset, Scant;
    ResetGuards(d);
    ResetIsScant(d);
    if OneByteAtMost(hash) {
      var q: Seq2 := if hash[1] != 0 then 1 else if hash[2] != 0 then 2 else if hash[3] != 0 then 3 else 0;
      var ms := FourPackets(hash, q);
      FourPacketsConfirm(d, ms, hash, q);
      assert Assembles(d, ms, hash);
    }
    forall ms | Assembles(d, ms, hash) ensures OneByteAtMost(hash) {
      forall q: Seq2, r: Seq2 | q != r && hash[q] != 0 && hash[r] != 0 ensures false {
        StreamNeverConfirms(Reset(d, true), ms, hash, q, r);
      }
    }
  }

  lemma FirstFeed(d: Dec, q: Seq2, s: seq<Byte>, hash: seq<Byte>)
    requires Guarded(d) && d.hash == NO_HASH && d.hashValid == 0
    requires |hash| == 4 && (forall r: Seq2 :: r != q ==> hash[r] == 0) && |s| >= 3 && s[2] == hash[q]
    ensures var e := Receive(d, q, s).0; Guarded(e) && e.cnt == 0 && e.hash == hash && e.hashValid == 1
  {
    hide Decode, Hash, ParseTable;
    ReceiveGuarded(d, q, s);
    assert Receive(d, q, s).0.hash == NO_HASH[q := hash[q]] == hash;
  }

  lemma RepeatedFeed(d: Dec, q: Seq2, s: seq<Byte>, hash: seq<Byte>)
    requires Guarded(d) && d.cnt == 0 && d.hash == hash && d.hashValid < 4 && |s| >= 3 && s[2] == hash[q]
    ensures var e := Receive(d, q, s).0; Guarded(e) && e.cnt == 0 && e.hash == hash && e.hashValid == d.hashValid + 1
  {
    hide Decode, Hash, ParseTable;
    ReceiveGuarded(d, q, s);
  }

  lemma FourHandled(d: Dec, ms: seq<Message>)
    requires Guarded(d) && |ms| == 4
    requires Guarded(Handle(d, ms[0])) && Guarded(Handle(Handle(d, ms[0]), ms[1]))
    requires Guarded(Handle(Handle(Handle(d, ms[0]), ms[1]), ms[2]))
    requires Guarded(Handle(Handle(Handle(Handle(d, ms[0]), ms[1]), ms[2]), ms[3]))
    ensures HandleAll(d, ms) == Handle(Handle(Handle(Handle(d, ms[0]), ms[1]), ms[2]), ms[3])
  {
    hide Handle, Hash;
    assert ms[1..][1..] == ms[2..] && ms[2..][1..] == ms[3..] && ms[3..][1..] == [];
    var d1 := Handle(d, ms[0]);
    var d2 := Handle(d1, ms[1]);
    var d3 := Handle(d2, ms[2]);
    assert HandleAll(d, ms) == HandleAll(d1, ms[1..]);
    assert HandleAll(d1, ms[1..]) == HandleAll(d2, ms[2..]);
    assert HandleAll(d2, ms[2..]) == HandleAll(d3, ms[3..]);
    assert HandleAll(d3, ms[3..]) == HandleAll(Handle(d3, ms[3]), []);
  }

  // ---------- time ----------

  /** The full timestamp always agrees with the last 16-bit time received, and it always advances. */
  lemma TimeTracks(d: Dec, ts: nat)
    requires ts < 0x1_0000 && d.ts < 0x1_0000
    requires d.timestamp % 20 == 0 && d.timestamp / 20 % 0x1_0000 == d.ts
    ensures var e := TakeTime(d, ts);
            && e.ts == ts && d.timestamp < e.timestamp <= d.timestamp + 20 * 0x1_0000
            && e.timestamp % 20 == 0 && e.timestamp / 20 % 0x1_0000 == ts
  {
    var dts := (ts - d.ts) % 0x1_0000;
    var steps := if dts == 0 then 0x1_0000 else dts;
    assert TakeTime(d, ts).timestamp / 20 == d.timestamp / 20 + steps;
  }

  /** Between two packets of a sender whose clock stood at t0 and t1 milliseconds the decoder's time
      advances by exactly the sender's, if and only if at least one step of 20 ms and at most one whole
      turn of the 16-bit time has passed. */
  lemma TimeFollows(d: Dec, t0: nat, t1: nat)
    requires t0 <= t1 && d.ts == t0 / TS_MS % 0x1_0000
    ensures var steps := t1 / TS_MS - t0 / TS_MS;
            TakeTime(d, t1 / TS_MS % 0x1_0000).timestamp == d.timestamp + TS_MS * steps
            <==> 0 < steps <= 0x1_0000
  {
    var a, b := t0 / TS_MS, t1 / TS_MS;
    assert (b % 0x1_0000 - a % 0x1_0000) % 0x1_0000 == (b - a) % 0x1_0000;
  }
}
