/** The decoder's reading of a value stream as a function, and its agreement with the encoder. */
module TelemetryDecode {
  import opened Bytes
  import opened TelemetryStream

  /** What a slot of the decoder holds. unpack_value() itself is not modelled: an unpacked value is
      known by its format and the block it came from. */
  datatype Value = Unset | Unpacked(fmt: Byte, block: seq<Byte>) | Nib(v: nat) | Flag(b: bool)

  datatype Cell = Cell(value: Value, upd: bool)

  /** The variables of the decoding loop; bit counts the shifts of code_bit, s is the unread stream. */
  datatype Cursor = Cursor(index: nat, s: seq<Byte>, cnt: nat, code: nat, bit: nat,
                           half: bool, nibble: Byte, cells: seq<Cell>)

  function Int16(v: int): int {
    (v + 0x8000) % 0x1_0000 - 0x8000
  }

  /** The pieces that follow a full 7-bit piece of a distance; an exhausted stream reads as zero. */
  function JumpTail(s: seq<Byte>, d: int): (r: (bool, int, seq<Byte>))
    ensures |r.2| <= |s|
    decreases |s|
  {
    if s == [] then (false, d, [])
    else if s[0] < 128 then (false, d, s[1..])
    else if s[0] == 255 then JumpTail(s[1..], Int16(d + 127))
    else (true, Int16(d + s[0] - 128), s[1..])
  }

  /** Reads the next presence code, or a distance and the slot it leads to. */
  function OpenCode(fields: seq<Field>, c: Cursor): (r: (Cursor, bool))
    requires c.s != []
    ensures r.1 && c.index < |fields| ==> c.index <= r.0.index < |fields|
    ensures |r.0.cells| == |c.cells| && r.0.cnt == c.cnt
  {
    var code, s := c.s[0], c.s[1..];
    var begun := c.(s := s, code := code, bit := 0, half := false);
    if code < 128 then (begun, true)
    else if code - 128 < 7 then (begun, false)
    else
      var (ok, d, rest) := if code == 255 then JumpTail(s, 127) else (true, code - 128, s);
      if !ok || d < 7 then (begun.(s := rest), false)
      else
        var jumped := begun.(s := rest, index := c.index + d);
        if jumped.index >= |fields| then (jumped, false)
        else (jumped.(bit := 6, code := 64), true)
  }

  /** The slot under the cursor takes its data if its bit of the code is set. */
  function TakeSlot(fields: seq<Field>, c: Cursor): (r: (Cursor, bool))
    requires c.index < |fields| == |c.cells| && c.cnt > 0
    ensures r.1 ==> r.0.index == c.index + 1
    ensures |r.0.cells| == |c.cells|
  {
    var fmt := fields[c.index].fmt;
    var sz := Size(fmt);
    if c.s == [] && !c.half then (c, false)
    else if !BitSet(c.code, c.bit) then (c.(index := c.index + 1), true)
    else if !c.half && (sz == 0 || sz > |c.s|) then (c, false)
    else
      var s := if c.half then c.s else c.s[sz..];
      var taken :=
        if fmt == FMT_U4 then
          if c.half then
            c.(half := false, cells := c.cells[c.index := Cell(Nib(c.nibble / 16), true)])
          else
            c.(s := s, half := true, nibble := c.s[0],
               cells := c.cells[c.index := Cell(Nib(c.s[0] % 16), true)])
        else if c.half then
          c.(half := false, cells := c.cells[c.index := Cell(c.cells[c.index].value, true)])
        else
          c.(s := s, cells := c.cells[c.index := Cell(Unpacked(fmt, c.s[..sz]), true)]);
      if c.cnt == 1 then (taken.(cnt := 0), false)
      else (taken.(cnt := c.cnt - 1, index := c.index + 1), true)
  }

  function Loop(fields: seq<Field>, pseq: Byte, c: Cursor): (r: Cursor)
    requires |c.cells| == |fields|
    ensures |r.cells| == |fields|
    decreases |fields| - c.index
  {
    if c.index >= |fields| || c.s == [] || c.cnt == 0 || fields[c.index].fmt == FMT_BIT then c
    else if !Due(fields[c.index], pseq) then Loop(fields, pseq, c.(index := c.index + 1))
    else
      var (c1, ok) := if c.bit == 6 then OpenCode(fields, c) else (c.(bit := c.bit + 1), true);
      if !ok then c1
      else
        var (c2, more) := TakeSlot(fields, c1);
        if more then Loop(fields, pseq, c2) else c2
  }

  /** The bitfields from slot i on; bit counts the shifts of code_bit within the current byte. */
  datatype TailResult = TailResult(s: seq<Byte>, left: nat, cells: seq<Cell>)

  function TailLoop(fields: seq<Field>, i: nat, s: seq<Byte>, code: nat, bit: nat, left: nat,
                    cells: seq<Cell>): (r: TailResult)
    requires i <= |fields| == |cells| && left == |fields| - i
    ensures |r.cells| == |cells| && r.left <= left
    decreases |fields| - i
  {
    if i >= |fields| || fields[i].fmt != FMT_BIT then TailResult(s, left, cells)
    else if bit == 7 && s == [] then TailResult(s, left, cells)
    else
      var (code', bit', s') := if bit == 7 then (s[0], 0, s[1..]) else (code, bit + 1, s);
      TailLoop(fields, i + 1, s', code', bit', left - 1, cells[i := Cell(Flag(BitSet(code', bit')), true)])
  }

  /** The first bitfield from slot i on. */
  function NextBit(fields: seq<Field>, i: nat): (r: nat)
    requires i <= |fields|
    ensures i <= r <= |fields| && (r < |fields| ==> fields[r].fmt == FMT_BIT)
    ensures forall j :: i <= j < r ==> fields[j].fmt != FMT_BIT
    decreases |fields| - i
  {
    if i == |fields| || fields[i].fmt == FMT_BIT then i else NextBit(fields, i + 1)
  }

  /** An empty stream is ignored; a stream that is not read to its end, or announces more slots than
      it has, is rejected and resets the decoder. */
  datatype Decoded = Ignored | Rejected | Accepted(updated: bool, cells: seq<Cell>)

  function Start(s: seq<Byte>, cells: seq<Cell>): Cursor
    requires s != []
  {
    Cursor(0, s[1..], s[0], 0, 6, false, 0, cells)
  }

  function Decode(fields: seq<Field>, pseq: Byte, s: seq<Byte>, cells: seq<Cell>): (r: Decoded)
    requires |cells| == |fields|
    ensures r.Accepted? ==> |r.cells| == |cells|
  {
    if s == [] then Ignored
    else
      var c := Loop(fields, pseq, Start(s, cells));
      if c.index < |fields| && c.s != [] && c.cnt == 0 then
        var n := NextBit(fields, c.index);
        var r := TailLoop(fields, n, c.s, c.code, 7, |fields| - n, c.cells);
        if r.s != [] || r.left != 0 then Rejected
        else Accepted(s[0] > 0 || n < |fields|, r.cells)
      else if c.s != [] || c.cnt != 0 then Rejected
      else Accepted(s[0] > 0, c.cells)
  }

  // ---------- when a packet can be decoded at all ----------

  /** The last transmitted slot from i on, k coded slots before the end of its presence code, shares a
      byte that an earlier slot has already brought. */
  ghost predicate EndsShared(job: Job, i: nat, k: nat, half: bool)
    requires job.Valid()
    decreases |job.fields| - i, if k == 0 then 2 else 0
  {
    if i >= job.N() then false
    else if k == 0 then EndsSharedAt(job, i)
    else if !job.Coded(i) then EndsShared(job, i + 1, k, half)
    else if !job.tx[i] then EndsShared(job, i + 1, k - 1, half)
    else if Count(job, i + 1) == 0 then half && job.fields[i].fmt == FMT_U4
    else EndsShared(job, i + 1, k - 1, !half && job.fields[i].fmt == FMT_U4)
  }

  ghost predicate EndsSharedAt(job: Job, i: nat)
    requires job.Valid()
    decreases |job.fields| - i, 1
  {
    var t := FirstTx(job, i);
    if t >= job.N() then false
    else if Code(job, i, 7) != 0 then EndsShared(job, i, 7, false)
    else EndsShared(job, t, 1, false)
  }

  /** Every transmitted slot from i on has a format of some size. */
  ghost predicate AllSized(job: Job, i: nat)
    requires job.Valid()
  {
    forall j :: i <= j < job.N() && job.tx[j] ==> Size(job.fields[j].fmt) > 0
  }

  function Expected(job: Job, j: nat): Cell
    requires job.Valid() && j < |job.fields|
  {
    Cell(if job.fields[j].fmt == FMT_U4 then Nib(Nibble(job, j)) else Unpacked(job.fields[j].fmt, job.blocks[j]), true)
  }

  /** The transmitted slots from i on have their expected contents, the others are as before. */
  function Stored(job: Job, i: nat, cells: seq<Cell>): (r: seq<Cell>)
    requires job.Valid() && |cells| == |job.fields|
    ensures |r| == |cells|
    ensures forall j :: 0 <= j < |cells| ==>
              r[j] == if i <= j < job.N() && job.tx[j] then Expected(job, j) else cells[j]
  {
    seq(|cells|, j requires 0 <= j < |cells| =>
      if i <= j < job.N() && job.tx[j] then Expected(job, j) else cells[j])
  }

  // ---------- nothing left to transmit ----------

  lemma {:induction false} NoneLeft(job: Job, i: nat, k: nat, half: bool)
    requires job.Valid() && Count(job, i) == 0
    ensures Data(job, i, k, half) == [] && Emit(job, i) == [] && Emit(job, After(job, i, k)) == []
    ensures !EndsShared(job, i, k, half) && !EndsSharedAt(job, i) && AllSized(job, i)
    decreases |job.fields| - i
  {
    if i < job.N() {
      NoneLeft(job, i + 1, k, half);
      if k > 0 {
        NoneLeft(job, i + 1, k - 1, half);
      }
    }
  }

  /** A rest without bytes that still has a slot to transmit is one shared nibble, or unsized. */
  lemma {:induction false} EmptyRest(job: Job, i: nat, k: nat, half: bool)
    requires job.Valid() && Count(job, i) > 0
    requires Data(job, i, k, half) == [] && Emit(job, After(job, i, k)) == []
    ensures EndsShared(job, i, k, half) || !AllSized(job, i)
    decreases |job.fields| - i, k
  {
    if k == 0 {
      SomeLeft(job, i);
    } else if !job.Coded(i) {
      EmptyRest(job, i + 1, k, half);
    } else if !job.tx[i] {
      EmptyRest(job, i + 1, k - 1, half);
    } else if AllSized(job, i) {
      assert job.fields[i].fmt == FMT_U4 && half;
      if Count(job, i + 1) > 0 {
        EmptyRest(job, i + 1, k - 1, false);
        NotSharedAlone(job, i + 1, k - 1);
      }
    }
  }

  lemma {:induction false} SomeLeft(job: Job, i: nat)
    requires job.Valid() && Count(job, i) > 0
    ensures FirstTx(job, i) < job.N() && Emit(job, i) != []
    decreases |job.fields| - i
  {
    if !job.tx[i] {
      SomeLeft(job, i + 1);
    }
  }

  /** Without a half-filled byte a sized slot always brings bytes of its own. */
  lemma {:induction false} NotSharedAlone(job: Job, i: nat, k: nat)
    requires job.Valid() && Count(job, i) > 0 && AllSized(job, i)
    ensures Data(job, i, k, false) + Emit(job, After(job, i, k)) != []
    decreases |job.fields| - i, k
  {
    hide Data, Emit, After, Code, High, Zoned, FirstBit, FirstTx;
    CountZone(job, i);
    if k == 0 {
      SomeLeft(job, i);
      NoCodedSlots(job, i);
    } else if !job.Coded(i) {
      UncodedSlot(job, i, k, false);
      NotSharedAlone(job, i + 1, k);
    } else if !job.tx[i] {
      SilentSlot(job, i, k, false);
      NotSharedAlone(job, i + 1, k - 1);
    } else {
      SentSlot(job, i, k);
    }
  }

  lemma NoCodedSlots(job: Job, i: nat)
    requires job.Valid()
    ensures Data(job, i, 0, false) == [] && After(job, i, 0) == i
  {
  }

  // ---------- the decoder in step with the encoder ----------

  lemma {:induction false} JumpTailReads(d: nat, acc: nat, rest: seq<Byte>)
    requires acc + d < 0x8000
    ensures JumpTail(Offset(d) + rest, acc) == (true, acc + d, rest)
    decreases d
  {
    var s := Offset(d) + rest;
    if d < 127 {
      assert s[1..] == rest;
    } else {
      assert s[1..] == Offset(d - 127) + rest;
      JumpTailReads(d - 127, acc + 127, rest);
    }
  }

  /** A distance of at least seven is read back and moves the cursor by exactly that much. */
  lemma OpenJump(fields: seq<Field>, c: Cursor, d: nat, rest: seq<Byte>)
    requires 7 <= d < 0x8000 && c.s == Offset(d) + rest && c.index + d < |fields|
    ensures c.s != []
    ensures OpenCode(fields, c) ==
            (c.(s := rest, index := c.index + d, bit := 6, code := 64, half := false), true)
  {
    if d < 127 {
      assert c.s[1..] == rest;
    } else {
      assert c.s[1..] == Offset(d - 127) + rest;
      JumpTailReads(d - 127, 127, rest);
    }
  }

  lemma StoredStep(job: Job, i: nat, cells: seq<Cell>)
    requires job.Valid() && |cells| == |job.fields| && i < job.N()
    ensures Stored(job, i, cells) ==
            Stored(job, i + 1, if job.tx[i] then cells[i := Expected(job, i)] else cells)
  {
  }

  ghost predicate Good(job: Job, i: nat, k: nat, half: bool, tail: seq<Byte>)
    requires job.Valid()
  {
    AllSized(job, i) && (tail != [] || !EndsShared(job, i, k, half))
  }

  /** Inside a presence code, k coded slots before its end. */
  ghost predicate InStep(job: Job, i: nat, k: nat, half: bool, c: Cursor, tail: seq<Byte>)
    requires job.Valid()
  {
    && i <= job.N() && c.index == i && |c.cells| == |job.fields|
    && c.half == half && (half ==> c.nibble / 16 == High(job, i, k))
    && (half ==> forall j :: i <= j < job.N() ==> job.fields[j].fmt == FMT_U4)
    && c.cnt == Count(job, i)
    && c.s == Data(job, i, k, half) + Emit(job, After(job, i, k)) + tail
  }

  // One round of the loop.

  predicate Enters(fields: seq<Field>, c: Cursor) {
    c.index < |fields| && c.s != [] && c.cnt > 0 && fields[c.index].fmt != FMT_BIT
  }

  lemma LoopStops(fields: seq<Field>, pseq: Byte, c: Cursor)
    requires |c.cells| == |fields| && !Enters(fields, c)
    ensures Loop(fields, pseq, c) == c
  {
  }

  lemma LoopSkips(fields: seq<Field>, pseq: Byte, c: Cursor)
    requires |c.cells| == |fields| && Enters(fields, c) && !Due(fields[c.index], pseq)
    ensures Loop(fields, pseq, c) == Loop(fields, pseq, c.(index := c.index + 1))
  {
  }

  lemma LoopTakes(fields: seq<Field>, pseq: Byte, c: Cursor)
    requires |c.cells| == |fields| && Enters(fields, c) && Due(fields[c.index], pseq)
    requires c.bit == 6 ==> OpenCode(fields, c).1
    ensures var c1 := if c.bit == 6 then OpenCode(fields, c).0 else c.(bit := c.bit + 1);
            var (c2, more) := TakeSlot(fields, c1);
            Loop(fields, pseq, c) == if more then Loop(fields, pseq, c2) else c2
  {
  }

  /** A presence code that cannot be followed ends the loop. */
  lemma LoopBreaks(fields: seq<Field>, pseq: Byte, c: Cursor)
    requires |c.cells| == |fields| && Enters(fields, c) && Due(fields[c.index], pseq)
    requires c.bit == 6 && !OpenCode(fields, c).1
    ensures Loop(fields, pseq, c) == OpenCode(fields, c).0
  {
  }

  /** Only the two low bits of the packet's number matter, and the wire carries no more. */
  lemma {:induction false} LoopMasked(fields: seq<Field>, pseq: Byte, c: Cursor)
    requires |c.cells| == |fields|
    ensures Loop(fields, pseq, c) == Loop(fields, pseq % 4, c)
    decreases |fields| - c.index
  {
    hide Loop, OpenCode, TakeSlot;
    if !Enters(fields, c) {
      LoopStops(fields, pseq, c);
      LoopStops(fields, pseq % 4, c);
    } else if !Due(fields[c.index], pseq) {
      LoopSkips(fields, pseq, c);
      LoopSkips(fields, pseq % 4, c);
      LoopMasked(fields, pseq, c.(index := c.index + 1));
    } else if c.bit == 6 && !OpenCode(fields, c).1 {
      LoopBreaks(fields, pseq, c);
      LoopBreaks(fields, pseq % 4, c);
    } else {
      LoopTakes(fields, pseq, c);
      LoopTakes(fields, pseq % 4, c);
      var c1 := if c.bit == 6 then OpenCode(fields, c).0 else c.(bit := c.bit + 1);
      var (c2, more) := TakeSlot(fields, c1);
      if more {
        LoopMasked(fields, pseq, c2);
      }
    }
  }

  lemma DecodeMasked(fields: seq<Field>, pseq: Byte, s: seq<Byte>, cells: seq<Cell>)
    requires |cells| == |fields|
    ensures Decode(fields, pseq, s, cells) == Decode(fields, pseq % 4, s, cells)
  {
    hide Loop, TailLoop, NextBit;
    if s != [] {
      LoopMasked(fields, pseq, Start(s, cells));
    }
  }

  // One slot under the cursor, its bit of the code selected.

  ghost predicate AtSlot(job: Job, i: nat, k: nat, half: bool, c: Cursor, tail: seq<Byte>)
    requires job.Valid()
  {
    && InStep(job, i, k, half, c, tail) && i < job.N() && job.Coded(i)
    && 1 <= k && c.bit + k == 7 && Shr(c.code, c.bit) == Code(job, i, k)
    && c.cnt > 0 && (c.s == [] ==> !half)
  }

  lemma SlotOff(job: Job, i: nat, k: nat, half: bool, c: Cursor, tail: seq<Byte>)
    requires job.Valid() && AtSlot(job, i, k, half, c, tail) && !job.tx[i] && c.s != []
    ensures TakeSlot(job.fields, c) == (c.(index := i + 1), true)
    ensures InStep(job, i + 1, k - 1, half, c.(index := i + 1), tail)
    ensures Shr(c.code, c.bit + 1) == Code(job, i + 1, k - 1)
  {
    hide Data, Emit, Code, High, Count, After, FirstTx, FirstCoded, EndsShared, EndsSharedAt, FirstBit, Zoned,
         Stored, Loop;
    SilentSlot(job, i, k, half);
  }

  /** The slot is transmitted and sized: it gets its expected contents. */
  ghost predicate Advanced(job: Job, i: nat, k: nat, half: bool, c: Cursor, c2: Cursor, more: bool, tail: seq<Byte>)
    requires job.Valid() && i < |job.fields| == |c.cells| && k > 0
  {
    && (more <==> Count(job, i + 1) > 0)
    && c2.index == (if more then i + 1 else i)
    && c2.cells == c.cells[i := Expected(job, i)]
    && c2.bit == c.bit && c2.code == c.code
    && InStep(job, i + 1, k - 1, half, c2.(index := i + 1), tail)
  }

  lemma SlotShared(job: Job, i: nat, k: nat, c: Cursor, tail: seq<Byte>)
    requires job.Valid() && AtSlot(job, i, k, true, c, tail) && job.tx[i] && c.s != []
    ensures var (c2, more) := TakeSlot(job.fields, c);
            Advanced(job, i, k, false, c, c2, more, tail)
  {
    hide Data, Emit, Code, High, Count, After, FirstTx, FirstCoded, EndsShared, EndsSharedAt, FirstBit, Zoned,
         Stored, Loop;
    SentSlot(job, i, k);
    assert job.fields[i].fmt == FMT_U4;
  }

  lemma SlotNibble(job: Job, i: nat, k: nat, c: Cursor, tail: seq<Byte>)
    requires job.Valid() && AtSlot(job, i, k, false, c, tail) && job.tx[i] && job.fields[i].fmt == FMT_U4
    ensures var (c2, more) := TakeSlot(job.fields, c);
            Advanced(job, i, k, true, c, c2, more, tail)
  {
    hide Data, Emit, Code, High, Count, After, FirstTx, FirstCoded, EndsShared, EndsSharedAt, FirstBit, Zoned,
         Stored, Loop;
    OnlyNibblesFollow(job, i);
    SentSlot(job, i, k);
    var rest := Data(job, i + 1, k - 1, true) + Emit(job, After(job, i + 1, k - 1)) + tail;
    assert c.s == [Nibble(job, i) + 16 * High(job, i + 1, k - 1)] + rest;
    assert c.s[1..] == rest;
  }

  lemma SlotBlock(job: Job, i: nat, k: nat, c: Cursor, tail: seq<Byte>)
    requires job.Valid() && AtSlot(job, i, k, false, c, tail) && job.tx[i] && job.fields[i].fmt != FMT_U4
    requires Size(job.fields[i].fmt) > 0
    ensures var (c2, more) := TakeSlot(job.fields, c);
            Advanced(job, i, k, false, c, c2, more, tail)
  {
    hide Data, Emit, Code, High, Count, After, FirstTx, FirstCoded, EndsShared, EndsSharedAt, FirstBit, Zoned,
         Stored, Loop;
    SentSlot(job, i, k);
    var rest := Data(job, i + 1, k - 1, false) + Emit(job, After(job, i + 1, k - 1)) + tail;
    var sz := Size(job.fields[i].fmt);
    assert c.s == job.blocks[i] + rest;
    assert c.s[..sz] == job.blocks[i] && c.s[sz..] == rest;
  }

  lemma SlotUnsized(job: Job, i: nat, k: nat, half: bool, c: Cursor, tail: seq<Byte>)
    requires job.Valid() && AtSlot(job, i, k, half, c, tail) && job.tx[i] && Size(job.fields[i].fmt) == 0
    ensures TakeSlot(job.fields, c) == (c, false)
  {
    assert !half;
  }

  // ---------- the three kinds of position ----------

  ghost predicate EndsWell(job: Job, i: nat, good: bool, cells: seq<Cell>, r: Cursor, tail: seq<Byte>)
    requires job.Valid() && |cells| == |job.fields|
  {
    if good then r.cnt == 0 && r.s == tail && r.index <= job.N() && r.cells == Stored(job, i, cells)
    else r.cnt > 0
  }

  lemma {:induction false} InCode(job: Job, i: nat, k: nat, half: bool, c: Cursor, tail: seq<Byte>)
    requires job.Valid() && InStep(job, i, k, half, c, tail)
    requires c.bit + k == 6 && (k > 0 ==> Shr(c.code, c.bit + 1) == Code(job, i, k))
    ensures EndsWell(job, i, Good(job, i, k, half, tail), c.cells, Loop(job.fields, job.pseq, c), tail)
    decreases |job.fields| - i, 2
  {
    hide Data, Emit, Code, High, Count, After, FirstTx, FirstCoded, EndsShared, EndsSharedAt, FirstBit, Zoned,
         Stored, Loop;
    if Count(job, i) > 0 {
      CountZone(job, i);
    }
    if Count(job, i) == 0 {
      NoneLeft(job, i, k, half);
      NothingStored(job, i, c.cells);
      LoopStops(job.fields, job.pseq, c);
    } else if c.s == [] {
      EmptyRest(job, i, k, half);
      LoopStops(job.fields, job.pseq, c);
    } else if k == 0 {
      PastCode(job, i, half);
      AtBoundary(job, i, c, tail);
    } else if !job.Coded(i) {
      UncodedSlot(job, i, k, half);
      LoopSkips(job.fields, job.pseq, c);
      InCode(job, i + 1, k, half, c.(index := i + 1), tail);
      StoredStep(job, i, c.cells);
      UntransmittedGood(job, i, k, half, tail);
    } else {
      LoopTakes(job.fields, job.pseq, c);
      SlotStep(job, i, k, half, c.(bit := c.bit + 1), tail);
    }
  }

  lemma PastCode(job: Job, i: nat, half: bool)
    requires job.Valid() && i < job.N()
    ensures Data(job, i, 0, half) == [] && After(job, i, 0) == i
    ensures EndsShared(job, i, 0, half) == EndsSharedAt(job, i)
  {
  }

  lemma CountZone(job: Job, i: nat)
    requires job.Valid() && Count(job, i) > 0
    ensures i < job.N()
  {
  }

  lemma UntransmittedGood(job: Job, i: nat, k: nat, half: bool, tail: seq<Byte>)
    requires job.Valid() && i < job.N() && !job.tx[i] && k > 0
    ensures Good(job, i, k, half, tail) == Good(job, i + 1, if job.Coded(i) then k - 1 else k, half, tail)
  {
    assert AllSized(job, i) == AllSized(job, i + 1);
  }

  lemma TransmittedGood(job: Job, i: nat, k: nat, half: bool, tail: seq<Byte>)
    requires job.Valid() && i < job.N() && job.tx[i] && k > 0 && Size(job.fields[i].fmt) > 0
    requires Count(job, i + 1) > 0
    ensures Good(job, i, k, half, tail) ==
            Good(job, i + 1, k - 1, !half && job.fields[i].fmt == FMT_U4, tail)
  {
    assert job.Coded(i);
    assert AllSized(job, i) == AllSized(job, i + 1);
  }

  lemma {:induction false} SlotStep(job: Job, i: nat, k: nat, half: bool, c: Cursor, tail: seq<Byte>)
    requires job.Valid() && AtSlot(job, i, k, half, c, tail)
    ensures c.index < |job.fields| == |c.cells|
    ensures var (c2, more) := TakeSlot(job.fields, c);
            var r := if more then Loop(job.fields, job.pseq, c2) else c2;
            EndsWell(job, i, Good(job, i, k, half, tail), c.cells, r, tail)
    decreases |job.fields| - i, 0
  {
    hide Data, Emit, Code, High, Count, After, FirstTx, FirstCoded, EndsShared, EndsSharedAt, FirstBit, Zoned,
         Stored, Loop;
    StoredStep(job, i, c.cells);
    if c.s == [] {
      EmptyMeansUnsized(job, i, k, c, tail);
    } else if !job.tx[i] {
      SlotOff(job, i, k, half, c, tail);
      InCode(job, i + 1, k - 1, half, c.(index := i + 1), tail);
      UntransmittedGood(job, i, k, half, tail);
    } else if Size(job.fields[i].fmt) == 0 {
      SlotUnsized(job, i, k, half, c, tail);
    } else {
      var half' := !half && job.fields[i].fmt == FMT_U4;
      var (c2, more) := TakeSlot(job.fields, c);
      if half {
        SlotShared(job, i, k, c, tail);
      } else if half' {
        SlotNibble(job, i, k, c, tail);
      } else {
        SlotBlock(job, i, k, c, tail);
      }
      if more {
        CodeShifts(job, i, k, c);
        InCode(job, i + 1, k - 1, half', c2, tail);
        TransmittedGood(job, i, k, half, tail);
      } else {
        LastSlot(job, i, k, half, c, c2, tail);
      }
    }
  }

  lemma EmptyMeansUnsized(job: Job, i: nat, k: nat, c: Cursor, tail: seq<Byte>)
    requires job.Valid() && AtSlot(job, i, k, false, c, tail) && c.s == []
    ensures TakeSlot(job.fields, c) == (c, false) && !AllSized(job, i)
  {
    if AllSized(job, i) {
      NotSharedAlone(job, i, k);
    }
  }

  lemma CodeShifts(job: Job, i: nat, k: nat, c: Cursor)
    requires job.Valid() && i < job.N() && job.Coded(i) && k > 0 && Shr(c.code, c.bit) == Code(job, i, k)
    ensures Shr(c.code, c.bit + 1) == Code(job, i + 1, k - 1)
  {
    hide Data, Emit, Code, High, Count, After, FirstTx, FirstCoded, EndsShared, EndsSharedAt, FirstBit, Zoned,
         Stored, Loop;
    if job.tx[i] {
      SentSlot(job, i, k);
    } else {
      SilentSlot(job, i, k, false);
    }
  }

  lemma LastSlot(job: Job, i: nat, k: nat, half: bool, c: Cursor, c2: Cursor, tail: seq<Byte>)
    requires job.Valid() && AtSlot(job, i, k, half, c, tail) && job.tx[i] && Size(job.fields[i].fmt) > 0
    requires c.s != []
    requires Advanced(job, i, k, !half && job.fields[i].fmt == FMT_U4, c, c2, false, tail)
    ensures EndsWell(job, i, Good(job, i, k, half, tail), c.cells, c2, tail)
  {
    hide Data, Emit, Code, High, Count, After, FirstTx, FirstCoded, EndsShared, EndsSharedAt, FirstBit, Zoned,
         Stored, Loop;
    NoneLeft(job, i + 1, k - 1, !half && job.fields[i].fmt == FMT_U4);
    LastGood(job, i, k, half, tail);
    StoredStep(job, i, c.cells);
    NothingStored(job, i + 1, c2.cells);
    SentSlot(job, i, k);
    if half {
      OnlyNibblesFrom(job, i, k, c, tail);
    }
  }

  lemma LastGood(job: Job, i: nat, k: nat, half: bool, tail: seq<Byte>)
    requires job.Valid() && i < job.N() && job.tx[i] && k > 0 && Size(job.fields[i].fmt) > 0
    requires Count(job, i + 1) == 0
    ensures Good(job, i, k, half, tail) == (tail != [] || !(half && job.fields[i].fmt == FMT_U4))
  {
    assert job.Coded(i);
    NoneLeft(job, i + 1, k - 1, false);
    assert AllSized(job, i) == AllSized(job, i + 1);
  }

  lemma OnlyNibblesFrom(job: Job, i: nat, k: nat, c: Cursor, tail: seq<Byte>)
    requires job.Valid() && AtSlot(job, i, k, true, c, tail)
    ensures job.fields[i].fmt == FMT_U4
  {
  }

  lemma {:induction false} NothingStored(job: Job, i: nat, cells: seq<Cell>)
    requires job.Valid() && |cells| == |job.fields| && Count(job, i) == 0
    ensures Stored(job, i, cells) == cells
    decreases |job.fields| - i
  {
    if i < job.N() {
      NothingStored(job, i + 1, cells);
      StoredStep(job, i, cells);
    }
  }

  lemma UncodedBoundary(job: Job, i: nat)
    requires job.Valid() && i < job.N() && !job.Coded(i)
    ensures Emit(job, i) == Emit(job, i + 1) && Count(job, i) == Count(job, i + 1)
    ensures EndsSharedAt(job, i) == EndsSharedAt(job, i + 1) && AllSized(job, i) == AllSized(job, i + 1)
  {
    hide Data, Emit, Code, High, Count, After, FirstBit, Zoned, Stored, Loop;
    UncodedSlot(job, i, 7, false);
    UncodedEmit(job, i);
    assert FirstTx(job, i) == FirstTx(job, i + 1);
  }

  lemma OpenedCode(job: Job, i: nat, c: Cursor, tail: seq<Byte>)
    requires job.Valid() && i < job.N() && job.Coded(i) && c.index == i && |c.cells| == |job.fields|
    requires Count(job, i) > 0 && FirstTx(job, i) < job.N() && Code(job, i, 7) != 0
    requires c.bit == 6 && c.cnt == Count(job, i) && c.s == Emit(job, i) + tail
    ensures c.s != [] && OpenCode(job.fields, c).1
    ensures AtSlot(job, i, 7, false, OpenCode(job.fields, c).0, tail)
    ensures OpenCode(job.fields, c).0.cells == c.cells
  {
    assert Pow2(7) == 128;
    AfterAdvances(job, i, 7);
    var rest := Data(job, i, 7, false) + Emit(job, After(job, i, 7)) + tail;
    assert c.s == [Code(job, i, 7)] + rest;
    assert c.s[1..] == rest;
  }

  lemma {:induction false} Skipped(job: Job, i: nat, t: nat)
    requires job.Valid() && i <= t == FirstTx(job, i) < job.N()
    ensures Count(job, i) == Count(job, t) && AllSized(job, i) == AllSized(job, t)
    decreases t - i
  {
    if i < t {
      Skipped(job, i + 1, t);
      assert AllSized(job, i) == AllSized(job, i + 1);
    }
  }

  lemma OpenedJump(job: Job, i: nat, c: Cursor, tail: seq<Byte>)
    requires job.Valid() && i < job.N() && job.Coded(i) && c.index == i && |c.cells| == |job.fields|
    requires Count(job, i) > 0 && FirstTx(job, i) < job.N() && Code(job, i, 7) == 0
    requires c.bit == 6 && c.cnt == Count(job, i) && c.s == Emit(job, i) + tail
    ensures c.s != [] && OpenCode(job.fields, c).1
    ensures AtSlot(job, FirstTx(job, i), 1, false, OpenCode(job.fields, c).0, tail)
    ensures OpenCode(job.fields, c).0.cells == c.cells
  {
    hide Emit, Data, Offset, Code, Count, High, After, FirstTx, FirstCoded, FirstBit, Zoned, OpenCode, AllSized, Shr;
    var t := FirstTx(job, i);
    JumpEmitted(job, i, t);
    Skipped(job, i, t);
    LastOfCode(job, t);
    var rest := Data(job, t, 1, false) + Emit(job, t + 1) + tail;
    assert c.s == Offset(t - i) + rest;
    OpenJump(job.fields, c, t - i, rest);
    SixtyFour();
  }

  lemma LastOfCode(job: Job, t: nat)
    requires job.Valid() && t < job.N() && job.tx[t]
    ensures job.Coded(t) && After(job, t, 1) == t + 1 && Code(job, t, 1) == 1
  {
  }

  lemma SharedAtCode(job: Job, i: nat)
    requires job.Valid() && FirstTx(job, i) < job.N()
    ensures EndsSharedAt(job, i) == if Code(job, i, 7) != 0 then EndsShared(job, i, 7, false)
                                    else EndsShared(job, FirstTx(job, i), 1, false)
  {
  }

  lemma SixtyFour()
    ensures Shr(64, 6) == 1
  {
  }

  /** A new presence code is due. */
  lemma {:induction false} AtBoundary(job: Job, i: nat, c: Cursor, tail: seq<Byte>)
    requires job.Valid() && i <= job.N() && c.index == i && |c.cells| == |job.fields|
    requires c.bit == 6 && c.cnt == Count(job, i) && c.s == Emit(job, i) + tail
    ensures EndsWell(job, i, AllSized(job, i) && (tail != [] || !EndsSharedAt(job, i)),
                     c.cells, Loop(job.fields, job.pseq, c), tail)
    decreases |job.fields| - i, 1
  {
    hide Data, Emit, Code, High, Count, After, FirstTx, FirstCoded, EndsShared, EndsSharedAt, FirstBit, Zoned,
         Stored, Loop;
    if Count(job, i) == 0 {
      NoneLeft(job, i, 0, false);
      NothingStored(job, i, c.cells);
      LoopStops(job.fields, job.pseq, c);
    } else {
      CountZone(job, i);
      SomeLeft(job, i);
      if !job.Coded(i) {
        UncodedBoundary(job, i);
        LoopSkips(job.fields, job.pseq, c);
        AtBoundary(job, i + 1, c.(index := i + 1), tail);
        StoredStep(job, i, c.cells);
      } else if Code(job, i, 7) != 0 {
        OpenedCode(job, i, c, tail);
        LoopTakes(job.fields, job.pseq, c);
        SharedAtCode(job, i);
        SlotStep(job, i, 7, false, OpenCode(job.fields, c).0, tail);
      } else {
        OpenedJump(job, i, c, tail);
        LoopTakes(job.fields, job.pseq, c);
        SharedAtCode(job, i);
        var t := FirstTx(job, i);
        SlotStep(job, t, 1, false, OpenCode(job.fields, c).0, tail);
        Skipped(job, i, t);
      }
    }
  }

  // ---------- the bitfields ----------

  function WithFlags(cells: seq<Cell>, n: nat, bits: seq<bool>): (r: seq<Cell>)
    requires |cells| == n + |bits|
    ensures |r| == |cells|
    ensures forall j :: 0 <= j < |cells| ==> r[j] == if j < n then cells[j] else Cell(Flag(bits[j - n]), true)
  {
    cells[..n] + seq(|bits|, j requires 0 <= j < |bits| => Cell(Flag(bits[j]), true))
  }

  /** head are the bits left in the current byte, rest those of the bytes still unread. */
  lemma {:induction false} TailReads(fields: seq<Field>, i: nat, s: seq<Byte>, code: nat, bit: nat,
                                     cells: seq<Cell>, head: seq<bool>, rest: seq<bool>)
    requires i <= |fields| == |cells| && |head| + |rest| == |fields| - i
    requires forall j :: i <= j < |fields| ==> fields[j].fmt == FMT_BIT
    requires bit <= 7 && |head| <= 7 - bit && (rest != [] ==> |head| == 7 - bit)
    requires Shr(code, bit + 1) == BitByte(head) || head == []
    requires s == BitTail(rest)
    ensures TailLoop(fields, i, s, code, bit, |fields| - i, cells)
            == TailResult([], 0, WithFlags(cells, i, head + rest))
    decreases |fields| - i
  {
    hide WithFlags, BitTail, BitByte, Shr, BitSet;
    if i == |fields| {
      assert head + rest == [];
      NoFlags(cells, rest);
    } else if head != [] {
      FirstBitOf(code, bit + 1, head);
      TailReads(fields, i + 1, s, code, bit + 1, cells[i := Cell(Flag(head[0]), true)], head[1..], rest);
      FlagsStep(cells, i, head + rest);
      assert (head + rest)[1..] == head[1..] + rest;
    } else {
      var first := if |rest| <= 8 then rest else rest[..8];
      var rest' := rest[|first|..];
      TailByte(rest);
      FirstBitOf(s[0], 0, first);
      TailReads(fields, i + 1, s[1..], s[0], 0, cells[i := Cell(Flag(first[0]), true)], first[1..], rest');
      FlagsStep(cells, i, rest);
      assert head + rest == rest && rest[1..] == first[1..] + rest';
    }
  }

  lemma NoFlags(cells: seq<Cell>, rest: seq<bool>)
    requires rest == []
    ensures WithFlags(cells, |cells|, rest) == cells && BitTail(rest) == []
  {
  }

  lemma TailByte(rest: seq<bool>)
    requires rest != []
    ensures var first := if |rest| <= 8 then rest else rest[..8];
            var s := BitTail(rest);
            s != [] && Shr(s[0], 0) == BitByte(first) && s[1..] == BitTail(rest[|first|..])
  {
  }

  lemma FirstBitOf(code: nat, bit: nat, head: seq<bool>)
    requires head != [] && Shr(code, bit) == BitByte(head)
    ensures BitSet(code, bit) == head[0] && Shr(code, bit + 1) == BitByte(head[1..])
  {
  }

  lemma FlagsStep(cells: seq<Cell>, i: nat, bits: seq<bool>)
    requires |cells| == i + |bits| && bits != []
    ensures WithFlags(cells, i, bits) ==
            WithFlags(cells[i := Cell(Flag(bits[0]), true)], i + 1, bits[1..])
  {
  }

  // ---------- the round trip ----------

  /** What the decoder must hold afterwards: the transmitted slots as packed, every bitfield, and
      everything else untouched. */
  function Merged(job: Job, bits: seq<bool>, cells: seq<Cell>): (r: seq<Cell>)
    requires job.Valid() && |bits| == |job.fields| - job.N() && |cells| == |job.fields|
    ensures |r| == |cells|
    ensures forall j :: 0 <= j < |cells| ==>
              r[j] == if j >= job.N() then Cell(Flag(bits[j - job.N()]), true)
                      else if job.tx[j] then Expected(job, j)
                      else cells[j]
  {
    WithFlags(Stored(job, 0, cells), job.N(), bits)
  }

  /** Decoding an encoded packet recovers exactly what was transmitted, if and only if every
      transmitted slot has a format with a size and, in a table without bitfields, the last
      transmitted slot has a byte of its own. In all other cases the decoder resets itself. */
  lemma RoundTrip(job: Job, bits: seq<bool>, cells: seq<Cell>)
    requires job.Valid() && |bits| == |job.fields| - job.N() && |cells| == |job.fields|
    ensures Decode(job.fields, job.pseq, Stream(job, bits), cells) ==
            if AllSized(job, 0) && (job.N() < |job.fields| || !EndsSharedAt(job, 0))
            then Accepted(Count(job, 0) > 0 || bits != [], Merged(job, bits, cells))
            else Rejected
  {
    hide Loop, Emit, Count, AllSized, EndsSharedAt, TailLoop, NextBit, BitTail, Stored, WithFlags, Zoned, FirstBit;
    var s := Stream(job, bits);
    var tail := BitTail(bits);
    var c := Start(s, cells);
    var r := Loop(job.fields, job.pseq, c);
    assert s[1..] == Emit(job, 0) + tail;
    AtBoundary(job, 0, c, tail);
    TailOrNot(bits);
    if AllSized(job, 0) && (tail != [] || !EndsSharedAt(job, 0)) {
      if tail != [] {
        TailAfter(job, bits, r, tail);
      } else {
        NoFlags(Stored(job, 0, cells), bits);
      }
    }
  }

  lemma TailOrNot(bits: seq<bool>)
    ensures BitTail(bits) == [] <==> bits == []
  {
  }

  /** The bitfields, read behind the last transmitted slot. */
  lemma TailAfter(job: Job, bits: seq<bool>, r: Cursor, tail: seq<Byte>)
    requires job.Valid() && |bits| == |job.fields| - job.N() > 0 && r.index <= job.N() && |r.cells| == |job.fields|
    requires tail == BitTail(bits)
    ensures var n := NextBit(job.fields, r.index);
            && n == job.N()
            && TailLoop(job.fields, n, tail, r.code, 7, |job.fields| - n, r.cells)
               == TailResult([], 0, WithFlags(r.cells, n, bits))
  {
    hide TailLoop, BitTail, WithFlags, Zoned;
    BitsFollow(job);
    TailReads(job.fields, job.N(), tail, r.code, 7, r.cells, [], bits);
    assert [] + bits == bits;
  }

  lemma BitsFollow(job: Job)
    requires job.Valid()
    ensures forall j :: job.N() <= j < |job.fields| ==> job.fields[j].fmt == FMT_BIT
  {
  }
}
