/** What the decoder does with bytes that no encoder need have written. */
module TelemetryAnyBytes {
  import opened Bytes
  import opened TelemetryStream
  import opened TelemetryFormat
  import opened TelemetryDecode
  import opened TelemetryState

  // ---------- distances ----------

  lemma WrapStep(n: int, d: int)
    ensures Int16(Int16(n) + d) == Int16(n + d)
  {
  }

  /** How the pieces of a distance begin. */
  lemma OffsetHead(e: nat, t: seq<Byte>)
    ensures var s := Offset(e) + t;
            && s != [] && s[0] >= 128 && (s[0] == 255 <==> e >= 127)
            && (if e >= 127 then s[1..] == Offset(e - 127) + t else s[0] as int == 128 + e && s[1..] == t)
  {
  }

  lemma OffsetOne(b: Byte, t: seq<Byte>)
    requires 128 <= b < 255
    ensures Offset(b - 128) + t == [b] + t
  {
  }

  lemma OffsetMore(d: nat, t: seq<Byte>)
    ensures Offset(d + 127) + t == [255] + (Offset(d) + t)
  {
  }

  /** The pieces behind a full one are read if and only if they are those of some distance. */
  lemma {:induction false} JumpTailExact(s: seq<Byte>, n: nat) returns (d: nat, rest: seq<Byte>)
    ensures var r := JumpTail(s, Int16(n));
            if r.0 then s == Offset(d) + rest && r.1 == Int16(n + d) && r.2 == rest
            else forall e: nat, t :: s != Offset(e) + t
    decreases |s|
  {
    hide Offset, Int16;
    d, rest := 0, [];
    if s != [] && s[0] == 255 {
      WrapStep(n, 127);
      d, rest := JumpTailExact(s[1..], n + 127);
      assert s == [255] + s[1..];
      OffsetMore(d, rest);
      d := d + 127;
    } else if s != [] && s[0] >= 128 {
      d, rest := s[0] - 128, s[1..];
      WrapStep(n, d);
      OffsetOne(s[0], rest);
      assert s == [s[0]] + rest;
    }
    if !JumpTail(s, Int16(n)).0 {
      forall e: nat, t ensures s != Offset(e) + t {
        OffsetHead(e, t);
      }
    }
  }

  /** A byte of 128 or more is taken if and only if the bytes are the pieces of a distance that, in sixteen
      bits, is at least seven and leads to a slot; then the cursor is there. */
  lemma OpenCodeExact(fields: seq<Field>, c: Cursor) returns (d: nat, rest: seq<Byte>)
    requires c.s != [] && c.s[0] >= 128
    ensures var (e, ok) := OpenCode(fields, c);
            if ok then
              && c.s == Offset(d) + rest && Int16(d) >= 7 && c.index + Int16(d) < |fields|
              && e.s == rest && e.index == c.index + Int16(d) && e.cells == c.cells && e.cnt == c.cnt
            else forall f: nat, t :: c.s == Offset(f) + t ==> Int16(f) < 7 || c.index + Int16(f) >= |fields|
  {
    hide JumpTail, Offset, Int16;
    SmallDistance(127);
    var s := c.s[1..];
    assert c.s == [c.s[0]] + s;
    if c.s[0] == 255 {
      d, rest := JumpTailExact(s, 127);
      OffsetMore(d, rest);
      d := d + 127;
      forall f: nat, t | c.s == Offset(f) + t ensures JumpTail(s, 127).0 && f == d && t == rest {
        OffsetHead(f, t);
        if JumpTail(s, 127).0 {
          OffsetUnique(d, rest, f, t);
        }
      }
    } else {
      d, rest := c.s[0] - 128, s;
      SmallDistance(d);
      OffsetOne(c.s[0], s);
      forall f: nat, t | c.s == Offset(f) + t ensures f == d && t == rest {
        OffsetHead(f, t);
      }
    }
  }

  lemma SmallDistance(d: nat)
    requires d < 0x8000
    ensures Int16(d) == d
  {
  }

  /** No distance begins another one. */
  lemma {:induction false} OffsetUnique(d: nat, s: seq<Byte>, e: nat, t: seq<Byte>)
    requires Offset(d) + s == Offset(e) + t
    ensures d == e && s == t
    decreases d
  {
    hide Offset;
    OffsetHead(d, s);
    OffsetHead(e, t);
    if d >= 127 {
      OffsetUnique(d - 127, s, e - 127, t);
    }
  }

  // ---------- accepted streams ----------

  /** Exactly the slots of `taken` have been written; none of them is a bitfield. */
  ghost predicate Wrote(fields: seq<Field>, before: seq<Cell>, after: seq<Cell>, taken: set<nat>, from: nat) {
    && |before| == |after| == |fields|
    && (forall i :: i in taken ==> from <= i < |fields| && fields[i].fmt != FMT_BIT && after[i].upd)
    && (forall i :: 0 <= i < |fields| && i !in taken ==> after[i] == before[i])
  }

  lemma OneWritten(fields: seq<Field>, c: Cursor)
    requires c.index < |fields| == |c.cells| && c.cnt > 0
    requires fields[c.index].fmt == FMT_BIT ==> !c.half
    ensures var (e, more) := TakeSlot(fields, c);
            && (e.cnt == c.cnt ==> e.cells == c.cells)
            && (e.cnt != c.cnt ==>
                  && e.cnt == c.cnt - 1 && Wrote(fields, c.cells, e.cells, {c.index}, c.index)
                  && (!more <==> e.cnt == 0))
  {
  }

  lemma WroteBoth(fields: seq<Field>, a: seq<Cell>, b: seq<Cell>, c: seq<Cell>, i: nat, later: set<nat>)
    requires Wrote(fields, a, b, {i}, i) && Wrote(fields, b, c, later, i + 1)
    ensures i !in later && |later + {i}| == |later| + 1 && Wrote(fields, a, c, later + {i}, i)
  {
    assert i !in later;
  }

  /** Whatever the bytes, the loop writes as many slots as it counts down. */
  lemma {:induction false} LoopWrites(fields: seq<Field>, pseq: Byte, c: Cursor) returns (taken: set<nat>)
    requires |c.cells| == |fields|
    ensures var r := Loop(fields, pseq, c);
            r.cnt <= c.cnt && |taken| == c.cnt - r.cnt && Wrote(fields, c.cells, r.cells, taken, c.index)
    decreases |fields| - c.index, 1
  {
    hide TakeSlot, OpenCode, Due, Wrote;
    taken := {};
    if Enters(fields, c) {
      if !Due(fields[c.index], pseq) {
        taken := LoopWrites(fields, pseq, c.(index := c.index + 1));
        Earlier(fields, c.cells, Loop(fields, pseq, c).cells, taken, c.index + 1, c.index);
      } else {
        var (c1, ok) := if c.bit == 6 then OpenCode(fields, c) else (c.(bit := c.bit + 1), true);
        Opened(fields, c);
        NoneWritten(fields, c.cells, c.index);
        if ok {
          taken := SlotWrites(fields, pseq, c1);
          Earlier(fields, c.cells, Loop(fields, pseq, c).cells, taken, c1.index, c.index);
        }
      }
    } else {
      NoneWritten(fields, c.cells, c.index);
    }
  }

  /** The rest of the loop from a slot whose code bit is selected. */
  lemma SlotWrites(fields: seq<Field>, pseq: Byte, c1: Cursor) returns (taken: set<nat>)
    requires c1.index < |fields| == |c1.cells| && c1.cnt > 0
    requires fields[c1.index].fmt == FMT_BIT ==> !c1.half
    ensures var (c2, more) := TakeSlot(fields, c1);
            var r := if more then Loop(fields, pseq, c2) else c2;
            r.cnt <= c1.cnt && |taken| == c1.cnt - r.cnt && Wrote(fields, c1.cells, r.cells, taken, c1.index)
    decreases |fields| - c1.index, 0
  {
    hide TakeSlot, Loop, Wrote;
    OneWritten(fields, c1);
    NoneWritten(fields, c1.cells, c1.index);
    var (c2, more) := TakeSlot(fields, c1);
    if more {
      var later := LoopWrites(fields, pseq, c2);
      var r := Loop(fields, pseq, c2);
      if c2.cnt == c1.cnt {
        taken := later;
        Earlier(fields, c1.cells, r.cells, taken, c2.index, c1.index);
      } else {
        WroteBoth(fields, c1.cells, c2.cells, r.cells, c1.index, later);
        taken := later + {c1.index};
      }
    } else {
      taken := if c2.cnt == c1.cnt then {} else {c1.index};
    }
  }

  lemma NoneWritten(fields: seq<Field>, cells: seq<Cell>, from: nat)
    requires |cells| == |fields|
    ensures Wrote(fields, cells, cells, {}, from)
  {
  }

  lemma Earlier(fields: seq<Field>, a: seq<Cell>, b: seq<Cell>, taken: set<nat>, from: nat, earlier: nat)
    requires Wrote(fields, a, b, taken, from) && earlier <= from
    ensures Wrote(fields, a, b, taken, earlier)
  {
  }

  lemma Opened(fields: seq<Field>, c: Cursor)
    requires Enters(fields, c)
    ensures var (e, ok) := OpenCode(fields, c);
            && e.cells == c.cells && e.cnt == c.cnt
            && (ok ==> c.index <= e.index < |fields| && !e.half)
  {
    hide JumpTail, Offset;
    if c.s[0] >= 128 {
      var d, rest := OpenCodeExact(fields, c);
    }
  }

  lemma {:induction false} TailWrites(fields: seq<Field>, i: nat, s: seq<Byte>, code: nat, bit: nat, left: nat,
                                      cells: seq<Cell>)
    requires i <= |fields| == |cells| && left == |fields| - i
    ensures var r := TailLoop(fields, i, s, code, bit, left, cells);
            && (forall j :: 0 <= j < i ==> r.cells[j] == cells[j])
            && (forall j :: i <= j < |fields| ==>
                  r.cells[j] == cells[j] || (fields[j].fmt == FMT_BIT && r.cells[j].value.Flag? && r.cells[j].upd))
            && (r.left == 0 ==> forall j :: i <= j < |fields| ==> fields[j].fmt == FMT_BIT && r.cells[j].value.Flag?)
    decreases |fields| - i
  {
    hide BitSet;
    if i < |fields| && fields[i].fmt == FMT_BIT && !(bit == 7 && s == []) {
      var (code', bit', s') := if bit == 7 then (s[0], 0, s[1..]) else (code, bit + 1, s);
      TailWrites(fields, i + 1, s', code', bit', left - 1, cells[i := Cell(Flag(BitSet(code', bit')), true)]);
    }
  }

  /** Whatever the bytes: an accepted stream writes exactly as many slots as its first byte says, and
      otherwise nothing but flags; and it says truly whether anything was written. */
  lemma AcceptedWrites(fields: seq<Field>, pseq: Byte, s: seq<Byte>, cells: seq<Cell>) returns (taken: set<nat>)
    requires |cells| == |fields| && Decode(fields, pseq, s, cells).Accepted?
    ensures s != [] && |taken| == s[0]
    ensures var r := Decode(fields, pseq, s, cells);
            && (forall i :: i in taken ==> 0 <= i < |fields| && fields[i].fmt != FMT_BIT && r.cells[i].upd)
            && (forall i :: 0 <= i < |fields| && i !in taken ==>
                  || r.cells[i] == cells[i]
                  || (fields[i].fmt == FMT_BIT && r.cells[i].value.Flag? && r.cells[i].upd))
            && (r.updated <==> s != [0]) && (!r.updated ==> r.cells == cells)
  {
    hide Loop, TailLoop, NextBit;
    taken := LoopWrites(fields, pseq, Start(s, cells));
    var c := Loop(fields, pseq, Start(s, cells));
    if c.index < |fields| && c.s != [] && c.cnt == 0 {
      var n := NextBit(fields, c.index);
      TailWrites(fields, n, c.s, c.code, 7, |fields| - n, c.cells);
    }
    if s[0] == 0 {
      assert taken == {};
      NothingAnnounced(fields, pseq, Start(s, cells));
      NoTail(fields, c.s, c.code, c.cells);
      assert s == [0] <==> s[1..] == [];
    }
  }

  lemma NoTail(fields: seq<Field>, s: seq<Byte>, code: nat, cells: seq<Cell>)
    requires |cells| == |fields|
    ensures TailLoop(fields, |fields|, s, code, 7, 0, cells) == TailResult(s, 0, cells)
  {
  }

  lemma NothingAnnounced(fields: seq<Field>, pseq: Byte, c: Cursor)
    requires |c.cells| == |fields| && c.cnt == 0
    ensures Loop(fields, pseq, c) == c
  {
  }

  /** A packet without values, or too short to be one, updates nothing. */
  lemma NoValues(d: Dec, pseq: Seq2, s: seq<Byte>)
    requires d.Shaped() && |s| <= 3
    ensures !Receive(d, pseq, s).1
    ensures Receive(d, pseq, s).0.cells in {d.cells, BlankCells()}
  {
    hide BlankCells;
  }

  // ---------- accepted format messages ----------

  lemma AfterBlockRaw(d: Dec, end: nat, isFinal: bool)
    requires d.Shaped() && end <= TABLE_BYTES
    ensures AfterBlock(d, end, isFinal).0.raw == d.raw
  {
    hide Hash;
  }

  /** The block fits what the header announces: its size, or less at the end, whole fields at the end. */
  predicate BlockFits(part: Byte, pcnt: Byte, size: Byte, n: nat) {
    var end := Pos(part, size) + n;
    && end <= TABLE_BYTES
    && if part as int + 1 == pcnt || (part == 0 && pcnt == 0) then n <= size as int && end % FIELD_BYTES == 0
       else n == size as int
  }

  lemma AfterBlockAccepts(d: Dec, end: nat, isFinal: bool)
    requires d.Shaped() && end <= TABLE_BYTES
    ensures AfterBlock(d, end, isFinal).1 <==> (isFinal ==> end % FIELD_BYTES == 0)
  {
    hide Hash;
  }

  lemma BlockAccepted(d: Dec, part: Byte, pcnt: Byte, size: Byte, hash: seq<Byte>, block: seq<Byte>)
    requires d.Shaped() && |hash| == 4
    ensures var (e, ok) := TakeBlock(d, part, pcnt, size, hash, block); var pos := Pos(part, size);
            && (ok <==> (part == 0 || hash == d.hash) && BlockFits(part, pcnt, size, |block|))
            && (ok ==> pos + |block| <= TABLE_BYTES && e.raw == d.raw[..pos] + block + d.raw[pos + |block|..])
  {
    hide AfterBlock, Pos;
    var pos := Pos(part, size);
    var isFinal := part as int + 1 == pcnt || (part == 0 && pcnt == 0);
    var e := if part == 0 then TakeHash(d, hash) else d;
    if pos + |block| <= TABLE_BYTES {
      AfterBlockRaw(e.(raw := e.raw[..pos] + block + e.raw[pos + |block|..]), pos + |block|, isFinal);
      AfterBlockAccepts(e.(raw := e.raw[..pos] + block + e.raw[pos + |block|..]), pos + |block|, isFinal);
    }
  }

  /** Whatever the bytes: a format message is accepted if and only if its header is in order, it carries the
      hash in use or is part 0, and its block fits; then it writes this block and nothing else. */
  lemma FormatAccepted(d: Dec, s: seq<Byte>)
    requires d.Shaped()
    ensures Format(d, s).1 <==>
              && |s| >= 8 && s[0] == FMT_VERSION && s[3] > 0
              && (s[1] == 0 || s[4..8] == d.hash) && BlockFits(s[1], s[2], s[3], |s| - 8)
    ensures Format(d, s).1 ==>
              var pos := Pos(s[1], s[3]);
              && pos + |s| - 8 <= TABLE_BYTES
              && Format(d, s).0.raw == d.raw[..pos] + s[8..] + d.raw[pos + |s| - 8..]
  {
    hide TakeBlock, Pos, BlockFits;
    if |s| >= 8 {
      BlockAccepted(d, s[1], s[2], s[3], s[4..8], s[8..]);
    }
  }

  /** The sender announces what it sends: a message carries a block if and only if its number is below the
      count in its header. */
  lemma AnnouncedParts(fields: seq<Field>, part: Byte, size: Byte)
    requires size > 0
    ensures var s := FormatMessage(fields, part, size);
            |s| >= 8 && s[1] == part && s[3] == size && (|s| > 8 <==> s[1] < s[2])
  {
    hide TableBytes, Hash, PartCount, Pos;
    var bytes := TableBytes(fields);
    var s := FormatMessage(fields, part, size);
    var count := PartCount(|bytes|, size);
    assert s[..8] == [FMT_VERSION, part, count % 256, size] + Hash(bytes);
    assert s[1] == s[..8][1] && s[2] == s[..8][2] && s[3] == s[..8][3];
    if part < count % 256 {
      assert count % 256 <= count;
      PartBounds(|bytes|, part, size);
    }
  }
}
