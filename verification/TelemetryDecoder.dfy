/** The telemetry decoder as an object whose tables are changed in place. */
module TelemetryDecoder {
  import opened Bytes
  import opened TelemetryStream
  import opened TelemetryFormat
  import opened TelemetryDecode
  import opened TelemetryState

  /** The local variables of decode_values(): everything a cursor has except the slots themselves. */
  datatype Scan = Scan(index: nat, s: seq<Byte>, cnt: nat, code: nat, bit: nat, half: bool, nibble: Byte) {
    function Over(cells: seq<Cell>): Cursor {
      Cursor(index, s, cnt, code, bit, half, nibble, cells)
    }
  }

  /** Where reading has stopped, the presence code no longer matters. */
  ghost predicate StoppedAt(c: Cursor, v: Scan, cells: seq<Cell>) {
    c.index == v.index && c.s == v.s && c.cnt == v.cnt && c.cells == cells
  }

  lemma TailCodeUnused(fields: seq<Field>, i: nat, s: seq<Byte>, code: nat, other: nat, left: nat, cells: seq<Cell>)
    requires i <= |fields| == |cells| && left == |fields| - i
    ensures TailLoop(fields, i, s, code, 7, left, cells) == TailLoop(fields, i, s, other, 7, left, cells)
  {
  }

  lemma NextBitStep(fields: seq<Field>, i: nat)
    requires i < |fields|
    ensures NextBit(fields, i) == if fields[i].fmt == FMT_BIT then i else NextBit(fields, i + 1)
  {
  }

  lemma TailStep(fields: seq<Field>, i: nat, s: seq<Byte>, code: nat, bit: nat, left: nat, cells: seq<Cell>)
    requires i < |fields| == |cells| && left == |fields| - i
    ensures TailLoop(fields, i, s, code, bit, left, cells) ==
            if fields[i].fmt != FMT_BIT || (bit == 7 && s == []) then TailResult(s, left, cells)
            else
              var (code', bit', s') := if bit == 7 then (s[0], 0, s[1..]) else (code, bit + 1, s);
              TailLoop(fields, i + 1, s', code', bit', left - 1, cells[i := Cell(Flag(BitSet(code', bit')), true)])
  {
  }

  lemma TailEnd(fields: seq<Field>, s: seq<Byte>, code: nat, bit: nat, cells: seq<Cell>)
    requires |cells| == |fields|
    ensures TailLoop(fields, |fields|, s, code, bit, 0, cells) == TailResult(s, 0, cells)
  {
  }

  class Decoder {
    const raw: array<Byte>
    const cells: array<Cell>
    var cnt: nat
    var hash: seq<Byte>
    var hashValid: nat
    var valid: bool
    var ts: nat
    var timestamp: nat

    ghost predicate Sized()
      reads this
    {
      raw.Length == TABLE_BYTES && cells.Length == SLOTS_SIZE && |hash| == 4 && cnt <= SLOTS_SIZE
    }

    ghost function State(): Dec
      reads this, raw, cells
    {
      Dec(raw[..], cells[..], cnt, hash, hashValid, valid, ts, timestamp)
    }

    ghost predicate Valid()
      reads this, raw, cells
    {
      Sized() && Guarded(State())
    }

    /** The hash has no initial value of its own. */
    constructor (memory: seq<Byte>)
      requires |memory| == 4
      ensures Valid() && cnt == 0 && !valid && hashValid == 0
    {
      raw := new Byte[TABLE_BYTES](_ => 0);
      cells := new Cell[SLOTS_SIZE](_ => BLANK);
      cnt, hash, hashValid, valid, ts, timestamp := 0, memory, 0, false, 0, 0;
    }

    method Reset(resetHash: bool)
      requires Sized()
      modifies this, cells
      ensures Sized() && State() == TelemetryState.Reset(old(State()), resetHash)
    {
      if resetHash {
        hash, hashValid := NO_HASH, 0;
      }
      cnt, valid := 0, false;
      for i := 0 to SLOTS_SIZE
        modifies cells
        invariant forall j :: 0 <= j < i ==> cells[j] == BLANK
      {
        cells[i] := BLANK;
      }
      assert cells[..] == BlankCells();
    }

    method CheckHash(sz: nat) returns (ok: bool)
      requires Sized() && sz <= TABLE_BYTES
      modifies this
      ensures Sized() && (State(), ok) == TelemetryState.CheckHash(old(State()), sz)
    {
      var vhash := GetHash(raw[..sz]);
      assert raw[..][..sz] == raw[..sz];
      if hashValid != 4 || vhash != hash {
        return false;
      }
      cnt, valid := sz / FIELD_BYTES, true;
      return true;
    }

    // ---------- one value packet ----------

    method FieldAt(i: nat) returns (f: Field)
      requires Sized() && i < cnt
      ensures f == State().Fields()[i]
    {
      f := ParseField(raw[FIELD_BYTES * i..FIELD_BYTES * i + FIELD_BYTES]);
      assert raw[..][FIELD_BYTES * i..FIELD_BYTES * i + FIELD_BYTES] == raw[FIELD_BYTES * i..FIELD_BYTES * i + FIELD_BYTES];
    }

    /** Reads a presence code, or the pieces of a distance and the slot it leads to. */
    method ReadCode(v: Scan, ghost fields: seq<Field>, ghost view: seq<Cell>) returns (w: Scan, ok: bool)
      requires v.s != [] && |fields| == cnt
      ensures ok == OpenCode(fields, v.Over(view)).1
      ensures if ok then w.Over(view) == OpenCode(fields, v.Over(view)).0
              else StoppedAt(OpenCode(fields, v.Over(view)).0, w, view)
    {
      var code := v.s[0];
      w := v.(s := v.s[1..], code := code, bit := 0, half := false);
      if code < 128 {
        return w, true;
      }
      var offset := code - 128;
      if offset < 7 {
        return w, false;
      }
      var dindex: int := offset;
      var flag := true;
      var rest := w.s;
      while offset == 0x7F
        invariant |rest| <= |w.s|
        invariant offset == 0x7F ==> flag
        invariant offset == 0x7F ==> code == 255 && JumpTail(w.s, 127) == JumpTail(rest, dindex)
        invariant offset != 0x7F ==>
                    if code == 255 then JumpTail(w.s, 127).0 == flag && JumpTail(w.s, 127).2 == rest
                                        && (flag ==> JumpTail(w.s, 127).1 == dindex)
                    else flag && rest == w.s && dindex == code - 128
        decreases offset == 0x7F, |rest|
      {
        flag := false;
        if rest == [] {
          offset := 0;
          break;
        }
        offset := rest[0];
        rest := rest[1..];
        if offset < 128 {
          offset := 0;
          break;
        }
        offset := offset - 128;
        flag := true;
        dindex := Int16(dindex + offset);
      }
      w := w.(s := rest);
      if !flag || dindex < 7 {
        return w, false;
      }
      w := w.(index := w.index + dindex);
      if w.index >= cnt {
        return w, false;
      }
      return w.(bit := 6, code := 64), true;
    }

    /** The slot under the cursor takes its data if its bit of the code is set. */
    method ReadSlot(v: Scan, fmt: Byte, ghost fields: seq<Field>) returns (w: Scan, more: bool)
      requires Sized() && |fields| == cnt && v.index < cnt && fmt == fields[v.index].fmt && v.cnt > 0
      modifies cells
      ensures cells[cnt..] == old(cells[cnt..])
      ensures (w.Over(cells[..cnt]), more) == TakeSlot(fields, v.Over(old(cells[..cnt])))
    {
      ghost var was := cells[..];
      w := v;
      if v.s == [] && !v.half {
        return w, false;
      }
      if !BitSet(v.code, v.bit) {
        return w.(index := v.index + 1), true;
      }
      var value := cells[v.index].value;
      if !v.half {
        var sz := Size(fmt);
        if sz == 0 || sz > |v.s| {
          return w, false;
        }
        value := Unpacked(fmt, v.s[..sz]);
        w := w.(s := v.s[sz..]);
      }
      if fmt == FMT_U4 {
        if !v.half {
          value := Nib(v.s[0] % 16);
          w := w.(half := true, nibble := v.s[0]);
        } else {
          value := Nib(v.nibble / 16);
          w := w.(half := false);
        }
      } else {
        w := w.(half := false);
      }
      cells[v.index] := Cell(value, true);
      assert cells[..] == was[v.index := Cell(value, true)];
      assert cells[..cnt] == was[..cnt][v.index := Cell(value, true)];
      w := w.(cnt := v.cnt - 1);
      if w.cnt == 0 {
        return w, false;
      }
      return w.(index := v.index + 1), true;
    }

    /** The body of the loop over the slots before the bitfields. */
    method ReadOne(v: Scan, pseq: Seq2, ghost fields: seq<Field>) returns (w: Scan, more: bool)
      requires Sized() && fields == State().Fields() && v.index < cnt && v.s != [] && v.cnt > 0
      requires fields[v.index].fmt != FMT_BIT
      modifies cells
      ensures cells[cnt..] == old(cells[cnt..])
      ensures var r := Loop(fields, pseq, v.Over(old(cells[..cnt])));
              if more then v.index < w.index && w.index <= cnt && Loop(fields, pseq, w.Over(cells[..cnt])) == r
              else StoppedAt(r, w, cells[..cnt])
    {
      hide ParseTable, Loop, OpenCode, TakeSlot;
      ghost var view := cells[..cnt];
      var f := FieldAt(v.index);
      if !Due(f, pseq) {
        LoopSkips(fields, pseq, v.Over(view));
        return v.(index := v.index + 1), true;
      }
      var ok := true;
      w := v;
      if v.bit == 6 {
        w, ok := ReadCode(v, fields, view);
      } else {
        w := v.(bit := v.bit + 1);
      }
      if !ok {
        LoopBreaks(fields, pseq, v.Over(view));
        return w, false;
      }
      LoopTakes(fields, pseq, v.Over(view));
      f := FieldAt(w.index);
      w, more := ReadSlot(w, f.fmt, fields);
    }

    /** The loop over the slots before the bitfields. */
    method ReadSlots(s: seq<Byte>, pseq: Seq2) returns (v: Scan)
      requires Sized() && s != []
      modifies cells
      ensures cells[cnt..] == old(cells[cnt..])
      ensures StoppedAt(Loop(State().Fields(), pseq, Start(s, old(cells[..cnt]))), v, cells[..cnt])
    {
      hide ParseTable, Loop;
      ghost var fields := State().Fields();
      ghost var r := Loop(fields, pseq, Start(s, cells[..cnt]));
      v := Scan(0, s[1..], s[0], 0, 6, false, 0);
      var more := true;
      while more && v.index < cnt && v.s != [] && v.cnt > 0
        invariant fields == State().Fields() && cells[cnt..] == old(cells[cnt..])
        invariant if more then v.index <= cnt && Loop(fields, pseq, v.Over(cells[..cnt])) == r
                  else StoppedAt(r, v, cells[..cnt])
        decreases more, cnt - v.index
      {
        var f := FieldAt(v.index);
        if f.fmt == FMT_BIT {
          break;
        }
        v, more := ReadOne(v, pseq, fields);
      }
      if more {
        LoopStops(fields, pseq, v.Over(cells[..cnt]));
      }
    }

    /** Passes over what is left before the bitfields. */
    method FindBits(from: nat) returns (index: nat)
      requires Sized() && from <= cnt
      ensures index == NextBit(State().Fields(), from)
    {
      hide ParseTable, NextBit;
      ghost var fields := State().Fields();
      index := from;
      while index < cnt
        invariant index <= cnt && NextBit(fields, index) == NextBit(fields, from)
      {
        var f := FieldAt(index);
        NextBitStep(fields, index);
        if f.fmt == FMT_BIT {
          return;
        }
        index := index + 1;
      }
    }

    /** The loop over the bitfields behind the last transmitted slot. */
    method ReadBits(v: Scan) returns (s: seq<Byte>, left: nat, updated: bool)
      requires Sized() && v.index <= cnt
      modifies cells
      ensures cells[cnt..] == old(cells[cnt..])
      ensures var fields := State().Fields(); var n := NextBit(fields, v.index);
              && TailLoop(fields, n, v.s, v.code, 7, cnt - n, old(cells[..cnt])) == TailResult(s, left, cells[..cnt])
              && (updated <==> left < cnt - n)
    {
      hide ParseTable, TailLoop, NextBit;
      ghost var fields := State().Fields();
      var index := FindBits(v.index);
      ghost var n := index;
      ghost var r := TailLoop(fields, n, v.s, v.code, 7, cnt - n, cells[..cnt]);
      s, left, updated := v.s, cnt - index, false;
      var code: nat, bit: nat := v.code, 7;
      while index < cnt
        invariant n <= index <= cnt && left == cnt - index && bit <= 7
        invariant fields == State().Fields() && cells[cnt..] == old(cells[cnt..])
        invariant TailLoop(fields, index, s, code, bit, left, cells[..cnt]) == r
        invariant updated <==> left < cnt - n
      {
        var f := FieldAt(index);
        TailStep(fields, index, s, code, bit, left, cells[..cnt]);
        if f.fmt != FMT_BIT {
          break;
        }
        if bit == 7 {
          if s == [] {
            break;
          }
          code, s, bit := s[0], s[1..], 0;
        } else {
          bit := bit + 1;
        }
        left := left - 1;
        ghost var was := cells[..cnt];
        cells[index] := Cell(Flag(BitSet(code, bit)), true);
        assert cells[..cnt] == was[index := Cell(Flag(BitSet(code, bit)), true)];
        index := index + 1;
        updated := true;
      }
      if index == cnt {
        TailEnd(fields, s, code, bit, cells[..cnt]);
      }
    }

    method DecodeValues(s: seq<Byte>, pseq: Seq2) returns (updated: bool)
      requires Sized()
      modifies this, cells
      ensures Sized() && (State(), updated) == TakeValues(old(State()), pseq, s)
    {
      hide ParseTable, Loop, TailLoop, NextBit;
      if s == [] {
        return false;
      }
      ghost var d := State();
      var v := ReadSlots(s, pseq);
      // true when a slot has been taken
      updated := v.cnt < s[0];
      ghost var r := Loop(d.Fields(), pseq, Start(s, d.cells[..cnt]));
      if v.index < cnt && v.s != [] && v.cnt == 0 {
        TailCodeUnused(d.Fields(), NextBit(d.Fields(), v.index), v.s, v.code, r.code,
                       cnt - NextBit(d.Fields(), v.index), cells[..cnt]);
        var rest, left, bits := ReadBits(v);
        updated := updated || bits;
        v := v.(s := rest, cnt := left);
      }
      if v.s != [] || v.cnt != 0 {
        Reset(true);
        return false;
      }
      assert cells[..] == cells[..cnt] + d.cells[cnt..];
    }

    /** The byte of the hash in the header of a value packet. The counter never passes four. */
    method CheckFeed(pseq: Seq2, feed: Byte)
      requires Valid()
      modifies this, cells
      ensures Sized() && State() == TakeFeed(old(State()), pseq, feed)
    {
      hide Hash;
      FeedGuarded(State(), pseq, feed);
      if hash[pseq] != feed {
        if hashValid > 0 || hash[pseq] != 0 {
          Reset(true);
        }
        hash := hash[pseq := feed];
        hashValid := hashValid + 1;
      } else if hashValid != 4 {
        hashValid := hashValid + 1;
      }
      if hashValid > 4 {
        assert false;
      }
    }

    method CheckTime(now: nat)
      requires Sized() && now < 0x1_0000
      modifies this
      ensures Sized() && State() == TakeTime(old(State()), now)
    {
      var dts := (now - ts) % 0x1_0000;
      ts := now;
      if dts == 0 {
        dts := 0xFFFF + 1;
      }
      timestamp := timestamp + dts * TS_MS;
    }

    method Decode(pseq: Seq2, s: seq<Byte>) returns (updated: bool)
      requires Valid()
      modifies this, cells
      ensures Valid() && (State(), updated) == Receive(old(State()), pseq, s)
    {
      hide TakeFeed, TakeTime, TakeValues, Guarded;
      ReceiveGuarded(State(), pseq, s);
      if |s| < 3 {
        return false;
      }
      CheckFeed(pseq, s[2]);
      CheckTime(FromLe16(s[0], s[1]));
      var rest := s[3..];
      if hashValid == 4 {
        if cnt != 0 {
          valid := true;
          updated := DecodeValues(rest, pseq);
          return;
        }
        if rest == [0] {
          valid := true;
          return false;
        }
      }
      valid := false;
      return false;
    }

    // ---------- one format message ----------

    /** Puts a block into the table. */
    method WriteBlock(pos: nat, block: seq<Byte>)
      requires Sized() && pos + |block| <= TABLE_BYTES
      modifies raw
      ensures raw[..] == old(raw[..pos]) + block + old(raw[pos + |block|..])
    {
      for i := 0 to |block|
        invariant forall j :: 0 <= j < raw.Length ==>
                    raw[j] == if pos <= j < pos + i then block[j - pos] else old(raw[j])
      {
        raw[pos + i] := block[i];
      }
    }

    /** The block is in place. */
    method Settle(end: nat, isFinal: bool) returns (ok: bool)
      requires Sized() && end <= TABLE_BYTES
      modifies this, cells
      ensures Sized() && (State(), ok) == AfterBlock(old(State()), end, isFinal)
    {
      hide Hash;
      if isFinal {
        if end % FIELD_BYTES != 0 {
          Reset(true);
          return false;
        }
        var whole := CheckHash(end);
        if whole {
          return true;
        }
      }
      if cnt == 0 {
        return true;
      }
      var same := CheckHash(FIELD_BYTES * cnt);
      if same {
        return true;
      }
      Reset(false);
      return true;
    }

    method ReceiveBlock(part: Byte, pcnt: Byte, size: Byte, newHash: seq<Byte>, block: seq<Byte>) returns (ok: bool)
      requires Sized() && |newHash| == 4
      modifies this, raw, cells
      ensures Sized() && (State(), ok) == TakeBlock(old(State()), part, pcnt, size, newHash, block)
    {
      hide AfterBlock, Pos;
      if part == 0 {
        if newHash != hash {
          Reset(true);
        }
        hash, hashValid := newHash, 4;
      } else if newHash != hash {
        Reset(true);
        return false;
      }
      var pos := Pos(part, size);
      var isFinal := part as int + 1 == pcnt || (part == 0 && pcnt == 0);
      if (isFinal && |block| > size) || (!isFinal && |block| != size) || pos + |block| > TABLE_BYTES {
        Reset(true);
        return false;
      }
      WriteBlock(pos, block);
      ok := Settle(pos + |block|, isFinal);
    }

    method DecodeFormat(s: seq<Byte>) returns (ok: bool)
      requires Valid()
      modifies this, raw, cells
      ensures Valid() && (State(), ok) == Format(old(State()), s)
    {
      hide TakeBlock, Guarded, Hash;
      FormatGuarded(State(), s);
      if |s| < 8 || s[0] != FMT_VERSION || s[3] == 0 {
        Reset(true);
        return false;
      }
      ok := ReceiveBlock(s[1], s[2], s[3], s[4..8], s[8..]);
    }
  }
}
