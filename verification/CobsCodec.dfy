/** The serial encoder and decoder with their buffers. */
module CobsCodec {
  import opened Bytes
  import opened Cobs
  import Crc32

  // ---------- steps of the recursive definitions ----------

  lemma StuffStep(run: seq<Byte>, s: seq<Byte>)
    requires |run| <= FULL_RUN && s != []
    ensures |run| == FULL_RUN ==> Stuff(run, s) == [255] + run + Stuff([], s)
    ensures |run| < FULL_RUN && s[0] == 0 ==> Stuff(run, s) == [1 + |run|] + run + Stuff([], s[1..])
    ensures |run| < FULL_RUN && s[0] != 0 ==> Stuff(run, s) == Stuff(run + [s[0]], s[1..])
    ensures |Stuff(run, s)| >= 2 + |run|
  {
    hide Codes;
    StuffLength([], s);
    StuffLength([], s[1..]);
    if |run| < FULL_RUN {
      StuffLength(run + [s[0]], s[1..]);
    }
  }

  /** total is what the buffer will hold: closed blocks up to codePos, then the open one and the rest.
      The code byte of the open block is written last. */
  ghost predicate Writing(out: seq<Byte>, codePos: nat, code: nat, rest: seq<Byte>, total: seq<Byte>) {
    && codePos < |out| && code == |out| - codePos <= 255
    && total == out[..codePos] + Stuff(out[codePos + 1..], rest)
  }

  lemma OpenBlock(out: seq<Byte>, codePos: nat, code: nat, rest: seq<Byte>, total: seq<Byte>, next: seq<Byte>)
    requires Writing(out, codePos, code, rest, total) && rest != []
    requires code == 255 || rest[0] == 0
    requires next == out[codePos := code] + [1]
    ensures |next| <= |total|
    ensures Writing(next, |out|, 1, if code == 255 then rest else rest[1..], total)
  {
    hide Stuff;
    var run := out[codePos + 1..];
    StuffStep(run, rest);
    assert next[|out| + 1..] == [];
    assert next[..|out|] == out[..codePos] + ([code] + run);
  }

  lemma CopyByte(out: seq<Byte>, codePos: nat, code: nat, rest: seq<Byte>, total: seq<Byte>)
    requires Writing(out, codePos, code, rest, total) && rest != [] && code != 255 && rest[0] != 0
    ensures |out| + 1 <= |total|
    ensures Writing(out + [rest[0]], codePos, code + 1, rest[1..], total)
  {
    hide Stuff;
    StuffStep(out[codePos + 1..], rest);
    assert (out + [rest[0]])[codePos + 1..] == out[codePos + 1..] + [rest[0]];
    assert (out + [rest[0]])[..codePos] == out[..codePos];
  }

  lemma WritingBounds(out: seq<Byte>, codePos: nat, code: nat, rest: seq<Byte>, total: seq<Byte>)
    requires Writing(out, codePos, code, rest, total)
    ensures codePos < |out| && code <= 255
  {
  }

  lemma CloseLast(out: seq<Byte>, codePos: nat, code: nat, total: seq<Byte>)
    requires Writing(out, codePos, code, [], total)
    ensures out[codePos := code] == total
  {
  }

  /** The size the buffer is declared with is exactly the worst case. */
  function BufferSize(packetSize: nat): nat {
    packetSize + 2 + (packetSize + 2 + 253) / 254 + 1
  }

  lemma AlwaysFits(payload: seq<Byte>, packetSize: nat)
    requires |payload| <= packetSize
    ensures |Encoded(payload)| <= BufferSize(packetSize)
  {
    hide Encoded, NoZero, Checked;
    EncodedShape(payload);
  }

  /** For every packet size some payload of that size fills the buffer to its last byte. */
  lemma BufferFilled(packetSize: nat)
    ensures var payload := Crc32.Worst(packetSize);
            |payload| == packetSize && |Encoded(payload)| == BufferSize(packetSize)
  {
    hide Encoded;
    WorstEncoded(packetSize);
  }

  class Encoder {
    const packetSize: nat
    const buf: array<Byte>

    ghost predicate Valid() {
      buf.Length == BufferSize(packetSize)
    }

    constructor (packetSize: nat)
      ensures Valid() && this.packetSize == packetSize
    {
      this.packetSize := packetSize;
      buf := new Byte[BufferSize(packetSize)];
    }

    /** The loop over the bytes of one source; the payload and the checksum are two of them. */
    method Append(src: seq<Byte>, codePos0: nat, code0: Byte, dest0: nat, ghost later: seq<Byte>, ghost total: seq<Byte>)
      returns (codePos: nat, code: Byte, dest: nat)
      requires dest0 <= buf.Length && |total| < buf.Length
      requires Writing(buf[..dest0], codePos0, code0, src + later, total)
      modifies buf
      ensures dest <= buf.Length && Writing(buf[..dest], codePos, code, later, total)
    {
      hide Writing, Stuff;
      codePos, code, dest := codePos0, code0, dest0;
      var i := 0;
      assert src[0..] == src;
      while i < |src|
        invariant i <= |src| && dest <= buf.Length
        invariant Writing(buf[..dest], codePos, code, src[i..] + later, total)
        decreases |src| - i, code == 255
      {
        ghost var out, rest := buf[..dest], src[i..] + later;
        assert rest[0] == src[i] && rest[1..] == src[i + 1..] + later;
        if code != 0xFF {
          var c := src[i];
          i := i + 1;
          if c != 0 {
            CopyByte(out, codePos, code, rest, total);
            buf[dest] := c;
            dest := dest + 1;
            assert buf[..dest] == out + [c];
            code := code + 1;
            continue;
          }
        }
        WritingBounds(out, codePos, code, rest, total);
        ghost var next := out[codePos := code] + [1];
        OpenBlock(out, codePos, code, rest, total, next);
        buf[codePos] := code;
        codePos := dest;
        code := 1;
        buf[dest] := code;
        dest := dest + 1;
        assert buf[..dest] == next;
      }
      assert src[|src|..] + later == later;
    }

    /** The buffer holds the packet; no write leaves it although nothing is checked. */
    method Encode(src: seq<Byte>) returns (n: nat)
      requires Valid() && |src| <= packetSize
      modifies buf
      ensures n <= buf.Length && buf[..n] == Encoded(src)
    {
      hide Writing, Stuff;
      AlwaysFits(src, packetSize);
      ghost var total := Stuff([], Checked(src));
      buf[0] := 1;
      FirstBlock(buf[..1], Checked(src));
      var crc16 := Crc32.PacketCrc16(src);
      var crc := Le16(crc16);
      var codePos, code, dest := Append(src, 0, 1, 1, crc, total);
      assert crc + [] == crc;
      codePos, code, dest := Append(crc, codePos, code, dest, [], total);
      WritingBounds(buf[..dest], codePos, code, [], total);
      CloseLast(buf[..dest], codePos, code, total);
      ghost var out := buf[..dest];
      buf[codePos] := code;
      assert buf[..dest] == out[codePos := code];
      buf[dest] := 0;
      n := dest + 1;
      assert buf[..n] == total + [0];
    }
  }

  lemma FirstBlock(out: seq<Byte>, rest: seq<Byte>)
    requires out == [1]
    ensures Writing(out, 0, 1, rest, Stuff([], rest))
  {
    assert out[1..] == [] && out[..0] == [];
  }

  // ---------- the decoder ----------

  lemma TakeStep(d: Rx, s: seq<Byte>, i: nat, status: Status, p: nat, t: Taken)
    requires i < |s| && Ahead(t, d, s, i, status, p)
    ensures var (e, out) := Step(d, s[i], p);
            if out.Delivered? then t == Taken(e, i + 1, PacketAvailable, out.payload)
            else Ahead(t, e, s, i + 1, if out.Failed? then out.status else status, p)
  {
    assert s[i..][1..] == s[i + 1..];
  }

  /** t is what the bytes from i on lead to. */
  ghost predicate Ahead(t: Taken, d: Rx, s: seq<Byte>, i: nat, status: Status, p: nat)
    requires i <= |s|
  {
    var rest := Take(d, s[i..], status, p);
    t == rest.(used := i + rest.used)
  }

  lemma AllTaken(d: Rx, s: seq<Byte>, status: Status, p: nat, t: Taken)
    requires Ahead(t, d, s, |s|, status, p)
    ensures t == Taken(d, |s|, status, [])
  {
  }

  class Decoder {
    const packetSize: nat
    const buf: array<Byte>
    var rsize: nat
    var rcnt: nat
    var code: Byte
    var copy: Byte
    var status: Status

    ghost predicate Valid()
      reads this
    {
      buf.Length == packetSize + CRC_SIZE && rcnt <= buf.Length
    }

    ghost function State(): Rx
      reads this, buf
      requires Valid()
    {
      Rx(buf[..rcnt], code, copy)
    }

    constructor (packetSize: nat)
      ensures Valid() && this.packetSize == packetSize && State() == RESTART
    {
      this.packetSize := packetSize;
      buf := new Byte[packetSize + CRC_SIZE];
      rsize, rcnt, code, copy, status := 0, 0, 0xFF, 0, Unknown;
    }

    method Restart()
      requires Valid()
      modifies this`code, this`copy, this`rcnt
      ensures Valid() && State() == RESTART
    {
      code, copy, rcnt := 0xFF, 0, 0;
    }

    method Reset()
      requires Valid()
      modifies this`code, this`copy, this`rcnt, this`status
      ensures Valid() && State() == RESTART && status == Unknown
    {
      status := Unknown;
      Restart();
    }

    method WriteDecodedByte(c: Byte) returns (ok: bool)
      requires Valid()
      modifies this`rcnt, buf
      ensures Valid() && ok == (old(rcnt) < buf.Length)
      ensures buf[..rcnt] == if ok then old(buf[..rcnt]) + [c] else old(buf[..rcnt])
    {
      if rcnt >= packetSize + CRC_SIZE {
        return false;
      }
      buf[rcnt] := c;
      rcnt := rcnt + 1;
      return true;
    }

    /** A delimiter. */
    method EndOfPacket() returns (out: Out)
      requires Valid()
      modifies this
      ensures Valid() && State() == RESTART && out == Finish(old(buf[..rcnt]), old(copy))
      ensures if out.Delivered? then status == PacketAvailable && rsize <= buf.Length && buf[..rsize] == out.payload
              else out.Failed? && status == out.status && rsize == old(rsize)
      ensures forall x :: status == PacketAvailable && buf[..rsize] == x
                          <==> old(copy) == 0 && x != [] && old(buf[..rcnt]) == Checked(x)
    {
      hide Checked;
      ghost var whole := buf[..rcnt];
      forall x ensures Finish(whole, copy) == Delivered(x) <==> copy == 0 && x != [] && whole == Checked(x) {
        FinishExact(whole, copy, x);
      }
      if copy != 0 {
        status := ErrorSize;
        Restart();
        return Failed(ErrorSize);
      }
      if rcnt <= CRC_SIZE {
        status := ErrorSize;
        Restart();
        return Failed(ErrorSize);
      }
      ghost var mem := buf[..rcnt];
      rcnt := rcnt - CRC_SIZE;
      var packetCrc := FromLe16(buf[rcnt], buf[rcnt + 1]);
      assert mem[..rcnt] == buf[..rcnt];
      var crc16 := Crc32.PacketCrc16(buf[..rcnt]);
      if packetCrc != crc16 {
        status := ErrorCRC;
        Restart();
        return Failed(ErrorCRC);
      }
      out := Delivered(buf[..rcnt]);
      rsize := rcnt;
      status := PacketAvailable;
      Restart();
    }

    /** Any other byte. */
    method OtherByte(c: Byte)
      requires Valid() && c != 0
      modifies this`code, this`copy, this`rcnt, this`status, buf
      ensures Valid()
      ensures var (e, out) := Step(old(State()), c, packetSize);
              && State() == e && !out.Delivered?
              && status == (if out.Failed? then out.status else old(status))
    {
      if copy != 0 {
        var ok := WriteDecodedByte(c);
        if !ok {
          status := ErrorOverflow;
          Restart();
          return;
        }
      } else {
        if code != 0xFF {
          var ok := WriteDecodedByte(0);
          if !ok {
            status := ErrorOverflow;
            Restart();
            return;
          }
        }
        code, copy := c, c;
      }
      copy := copy - 1;
    }

    /** The packet stays in the buffer until the next call. */
    method Decode(src: seq<Byte>) returns (used: nat)
      requires Valid()
      modifies this, buf
      ensures Valid()
      ensures var t := Cobs.Decode(old(State()), src, packetSize);
              && State() == t.state && used == t.used && status == t.status
              && (if status == PacketAvailable then rsize <= buf.Length && buf[..rsize] == t.payload
                  else rsize == old(rsize))
    {
      hide Take, Step, Finish, Ahead;
      status := Unknown;
      ghost var t := Take(State(), src, Unknown, packetSize);
      FirstAhead(State(), src, packetSize);
      var i := 0;
      while i < |src|
        invariant i <= |src| && Valid() && Ahead(t, State(), src, i, status, packetSize)
        invariant status != PacketAvailable && rsize == old(rsize)
        invariant i == 0 ==> status == Unknown
      {
        var c := src[i];
        ghost var d := State();
        TakeStep(d, src, i, status, packetSize, t);
        i := i + 1;
        if c == 0 {
          DelimiterStep(d, packetSize);
          var out := EndOfPacket();
          if out.Delivered? {
            return i;
          }
          FinishFails(d.mem, d.copy);
        } else {
          StepFails(d, c, packetSize);
          OtherByte(c);
        }
      }
      AllTaken(State(), src, status, packetSize, t);
      if status == Unknown {
        status := if |src| != 0 then DataAccepted else DataDropped;
      }
      return |src|;
    }
  }

  lemma FirstAhead(d: Rx, s: seq<Byte>, p: nat)
    ensures Ahead(Take(d, s, Unknown, p), d, s, 0, Unknown, p)
  {
    assert s[0..] == s;
  }

  lemma DelimiterStep(d: Rx, p: nat)
    ensures Step(d, 0, p) == (RESTART, Finish(d.mem, d.copy))
  {
  }

  lemma FinishFails(mem: seq<Byte>, copy: Byte)
    ensures var out := Finish(mem, copy); out.Delivered? || (out.Failed? && out.status in {ErrorSize, ErrorCRC})
  {
  }
}
