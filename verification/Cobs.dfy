/** Consistent overhead byte stuffing with a checksum: what the encoder must write, how the decoder
    reads byte by byte, and that the two agree. */
module Cobs {
  import opened Bytes
  import Crc32

  /** A full code covers this many bytes and stands for no zero. */
  const FULL_RUN: nat := 254
  const CRC_SIZE: nat := 2

  // ---------- the encoding ----------

  ghost predicate NoZero(s: seq<Byte>) {
    forall i :: 0 <= i < |s| ==> s[i] != 0
  }

  /** The blocks for s behind a block that has collected run so far. */
  function Stuff(run: seq<Byte>, s: seq<Byte>): (out: seq<Byte>)
    requires |run| <= FULL_RUN
    decreases |s|, |run|
  {
    if s == [] then [1 + |run|] + run
    else if |run| == FULL_RUN then [255] + run + Stuff([], s)
    else if s[0] == 0 then [1 + |run|] + run + Stuff([], s[1..])
    else Stuff(run + [s[0]], s[1..])
  }

  /** The payload and its checksum. */
  function Checked(payload: seq<Byte>): (s: seq<Byte>)
    ensures |s| == |payload| + CRC_SIZE
  {
    payload + Le16(Crc32.PacketCrc(payload))
  }

  /** A packet on the line. */
  function Encoded(payload: seq<Byte>): seq<Byte> {
    Stuff([], Checked(payload)) + [0]
  }

  /** The number of code bytes that n bytes without a zero need. */
  function Codes(n: nat): nat {
    if n == 0 then 1 else (n + 253) / 254
  }

  lemma CodesGrow(m: nat, n: nat)
    requires m <= n
    ensures Codes(m) <= Codes(n)
  {
  }

  /** Never longer than without any zero, and exactly as long if there is none. */
  lemma {:induction false} StuffLength(run: seq<Byte>, s: seq<Byte>)
    requires |run| <= FULL_RUN
    ensures 1 + |run| <= |Stuff(run, s)| <= |run| + |s| + Codes(|run| + |s|)
    ensures NoZero(s) ==> |Stuff(run, s)| == |run| + |s| + Codes(|run| + |s|)
    decreases |s|, |run|
  {
    if s != [] {
      if |run| == FULL_RUN {
        StuffLength([], s);
      } else if s[0] == 0 {
        StuffLength([], s[1..]);
        CodesGrow(|s| - 1, |run| + |s|);
      } else {
        StuffLength(run + [s[0]], s[1..]);
      }
    }
  }

  lemma {:induction false} StuffHasNoZero(run: seq<Byte>, s: seq<Byte>)
    requires |run| <= FULL_RUN && NoZero(run)
    ensures NoZero(Stuff(run, s))
    decreases |s|, |run|
  {
    if s != [] {
      if |run| == FULL_RUN {
        StuffHasNoZero([], s);
      } else if s[0] == 0 {
        StuffHasNoZero([], s[1..]);
      } else {
        StuffHasNoZero(run + [s[0]], s[1..]);
      }
    }
  }

  /** The exact worst case, reached whenever neither the payload nor its checksum has a zero byte; the
      delimiter is the only zero byte of a packet. */
  lemma EncodedShape(payload: seq<Byte>)
    ensures var n := |payload| + CRC_SIZE; var out := Encoded(payload);
            && |out| <= n + (n + 253) / 254 + 1
            && (NoZero(Checked(payload)) ==> |out| == n + (n + 253) / 254 + 1)
            && out[|out| - 1] == 0 && NoZero(out[..|out| - 1])
  {
    hide Stuff, Checked;
    StuffLength([], Checked(payload));
    StuffHasNoZero([], Checked(payload));
    assert Encoded(payload)[..|Encoded(payload)| - 1] == Stuff([], Checked(payload));
  }

  /** For every length there is a payload that needs that many bytes. */
  lemma WorstEncoded(n: nat)
    ensures |Crc32.Worst(n)| == n && |Encoded(Crc32.Worst(n))| == n + CRC_SIZE + (n + CRC_SIZE + 253) / 254 + 1
  {
    hide Encoded, Crc32.PacketCrc;
    Crc32.WorstCrc(n);
    assert NoZero(Checked(Crc32.Worst(n)));
    EncodedShape(Crc32.Worst(n));
  }

  // ---------- the decoder ----------

  datatype Status = Unknown | PacketAvailable | DataAccepted | DataDropped | ErrorOverflow | ErrorSize | ErrorCRC

  /** The bytes decoded so far, the code of the current block and how many of its bytes are to come. */
  datatype Rx = Rx(mem: seq<Byte>, code: Byte, copy: Byte)

  const RESTART: Rx := Rx([], 0xFF, 0)

  datatype Out = Silent | Failed(status: Status) | Delivered(payload: seq<Byte>)

  /** The state fits a buffer for packets of up to p bytes. */
  predicate Fits(d: Rx, p: nat) {
    |d.mem| <= p + CRC_SIZE
  }

  /** A delimiter ends a packet. */
  function Finish(mem: seq<Byte>, copy: Byte): Out {
    if copy != 0 || |mem| <= CRC_SIZE then Failed(ErrorSize)
    else
      var n := |mem| - CRC_SIZE;
      if FromLe16(mem[n], mem[n + 1]) != Crc32.PacketCrc(mem[..n]) then Failed(ErrorCRC)
      else Delivered(mem[..n])
  }

  /** One byte, by a decoder for packets of up to p bytes. */
  function Step(d: Rx, c: Byte, p: nat): (Rx, Out) {
    if c == 0 then (RESTART, Finish(d.mem, d.copy))
    else if d.copy != 0 then
      if |d.mem| >= p + CRC_SIZE then (RESTART, Failed(ErrorOverflow))
      else (Rx(d.mem + [c], d.code, d.copy - 1), Silent)
    else if d.code != 0xFF then
      if |d.mem| >= p + CRC_SIZE then (RESTART, Failed(ErrorOverflow))
      else (Rx(d.mem + [0], c, c - 1), Silent)
    else (Rx(d.mem, c, c - 1), Silent)
  }

  /** All bytes in turn: the state behind them, and everything that was not silent. */
  function Run(d: Rx, s: seq<Byte>, p: nat): (r: (Rx, seq<Out>))
    ensures Fits(d, p) ==> Fits(r.0, p)
    decreases |s|
  {
    if s == [] then (d, [])
    else
      var (e, out) := Step(d, s[0], p);
      var (last, outs) := Run(e, s[1..], p);
      (last, if out.Silent? then outs else [out] + outs)
  }

  /** Cutting the bytes anywhere makes no difference. */
  lemma {:induction false} RunAppend(d: Rx, a: seq<Byte>, b: seq<Byte>, p: nat)
    ensures var (e, first) := Run(d, a, p);
            Run(d, a + b, p) == (Run(e, b, p).0, first + Run(e, b, p).1)
    decreases |a|
  {
    if a == [] {
      assert a + b == b && [] + Run(d, b, p).1 == Run(d, b, p).1;
    } else {
      assert (a + b)[1..] == a[1..] + b;
      var (e, out) := Step(d, a[0], p);
      RunAppend(e, a[1..], b, p);
      var (e2, outs) := Run(e, a[1..], p);
      assert [out] + (outs + Run(e2, b, p).1) == [out] + outs + Run(e2, b, p).1;
    }
  }

  /** The bytes of a block, or the first of them: they are taken as they are until the buffer is full. */
  lemma {:induction false} CopyRun(d: Rx, run: seq<Byte>, p: nat)
    requires NoZero(run) && |run| <= d.copy as int && Fits(d, p)
    ensures |d.mem| + |run| <= p + CRC_SIZE ==>
              Run(d, run, p) == (Rx(d.mem + run, d.code, d.copy - |run|), [])
    ensures |d.mem| + |run| > p + CRC_SIZE ==>
              Run(d, run, p).1 != [] && Run(d, run, p).1[0] == Failed(ErrorOverflow)
    decreases |run|
  {
    if run == [] {
      assert d.mem + run == d.mem;
    } else if |d.mem| < p + CRC_SIZE {
      CopyRun(Rx(d.mem + [run[0]], d.code, d.copy - 1), run[1..], p);
      assert d.mem + [run[0]] + run[1..] == d.mem + run;
    }
  }

  /** The zero that the block before stands for. */
  function Implied(code: Byte): seq<Byte> {
    if code == 0xFF then [] else [0]
  }

  lemma OneBlock(d: Rx, run: seq<Byte>, p: nat)
    requires NoZero(run) && |run| <= FULL_RUN && d.copy == 0
    requires |d.mem| + |Implied(d.code)| + |run| <= p + CRC_SIZE
    ensures Run(d, [1 + |run|] + run, p) == (Rx(d.mem + Implied(d.code) + run, 1 + |run|, 0), [])
  {
    var e := Rx(d.mem + Implied(d.code), 1 + |run|, |run|);
    assert d.mem + [] == d.mem;
    assert Step(d, 1 + |run|, p) == (e, Silent);
    assert ([1 + |run|] + run)[1..] == run;
    CopyRun(e, run, p);
  }

  /** Reading what the encoder writes gives the bytes back without a sound. */
  lemma {:induction false} Unstuff(d: Rx, run: seq<Byte>, s: seq<Byte>, p: nat)
    requires NoZero(run) && |run| <= FULL_RUN && d.copy == 0
    requires |d.mem| + |Implied(d.code)| + |run| + |s| <= p + CRC_SIZE
    ensures var (e, outs) := Run(d, Stuff(run, s), p);
            outs == [] && e.mem == d.mem + Implied(d.code) + run + s && e.copy == 0
    decreases |s|, |run|
  {
    hide Run;
    var front := d.mem + Implied(d.code);
    if s == [] {
      OneBlock(d, run, p);
      assert front + run + s == front + run;
    } else if |run| == FULL_RUN || s[0] == 0 {
      OneBlock(d, run, p);
      var e := Rx(front + run, 1 + |run|, 0);
      var rest := if |run| == FULL_RUN then s else s[1..];
      Unstuff(e, [], rest, p);
      RunAppend(d, [1 + |run|] + run, Stuff([], rest), p);
      assert front + run + Implied(e.code) + [] + rest == front + run + s;
    } else {
      Unstuff(d, run + [s[0]], s[1..], p);
      assert front + (run + [s[0]]) + s[1..] == front + run + s;
    }
  }

  // ---------- one packet ----------

  /** A delimiter delivers x if and only if the packet is complete and is x, not empty, followed by its own
      checksum. */
  lemma FinishExact(mem: seq<Byte>, copy: Byte, x: seq<Byte>)
    ensures Finish(mem, copy) == Delivered(x) <==> copy == 0 && x != [] && mem == Checked(x)
  {
    hide Crc32.PacketCrc;
    if copy == 0 && |mem| > CRC_SIZE {
      var n := |mem| - CRC_SIZE;
      assert mem == mem[..n] + [mem[n], mem[n + 1]];
    }
    if mem == Checked(x) {
      assert mem[..|x|] == x;
      LowFirst(Crc32.PacketCrc(x));
    }
  }

  lemma OneByte(d: Rx, c: Byte, p: nat)
    ensures var (e, out) := Step(d, c, p); Run(d, [c], p) == (e, if out.Silent? then [] else [out])
  {
    var s: seq<Byte> := [c];
    assert s[1..] == [];
    var (e, out) := Step(d, c, p);
    assert Run(e, s[1..], p) == (e, []) && [out] + [] == [out];
  }

  /** Every payload that fits comes back once, at the delimiter. */
  lemma PacketDelivered(payload: seq<Byte>, p: nat)
    requires 0 < |payload| <= p
    ensures Run(RESTART, Encoded(payload), p) == (RESTART, [Delivered(payload)])
  {
    hide Stuff, Checked, Finish;
    Unstuff(RESTART, [], Checked(payload), p);
    var (e, outs) := Run(RESTART, Stuff([], Checked(payload)), p);
    assert e.mem == Checked(payload);
    FinishExact(Checked(payload), 0, payload);
    OneByte(e, 0, p);
    RunAppend(RESTART, Stuff([], Checked(payload)), [0], p);
    assert [] + [Delivered(payload)] == [Delivered(payload)];
  }

  // ---------- nothing else is delivered ----------

  /** The bytes are whole blocks: a code, and one byte less than it says. */
  predicate WholeBlocks(s: seq<Byte>)
    decreases |s|
  {
    s == [] || (0 < s[0] as int <= |s| && WholeBlocks(s[s[0]..]))
  }

  /** What they stand for: the bytes of each block, and a zero between two blocks if the first is not full. */
  function Restored(s: seq<Byte>): seq<Byte>
    requires WholeBlocks(s)
    decreases |s|
  {
    if s == [] then []
    else
      var rest := s[s[0]..];
      s[1..s[0]] + if rest == [] then [] else Implied(s[0]) + Restored(rest)
  }

  /** What a decoder between two blocks will have collected behind whole blocks. */
  function Collected(d: Rx, s: seq<Byte>): seq<Byte>
    requires WholeBlocks(s)
  {
    if s == [] then d.mem else d.mem + Implied(d.code) + Restored(s)
  }

  /** The first block, whole or cut short by the delimiter. */
  lemma BlockBegun(d: Rx, s: seq<Byte>, p: nat)
    requires NoZero(s) && s != [] && |s| <= s[0] as int && d.copy == 0 && Fits(d, p)
    ensures var mem := d.mem + Implied(d.code) + s[1..];
            if |mem| <= p + CRC_SIZE then Run(d, s, p) == (Rx(mem, s[0], s[0] - |s|), [])
            else Run(d, s, p).1 != [] && Run(d, s, p).1[0] == Failed(ErrorOverflow)
  {
    var front := d.mem + Implied(d.code);
    assert d.mem + [] == d.mem;
    if |front| <= p + CRC_SIZE {
      var e := Rx(front, s[0], s[0] - 1);
      assert Step(d, s[0], p) == (e, Silent);
      CopyRun(e, s[1..], p);
    }
  }

  /** Up to the next delimiter the decoder delivers x and is silent otherwise, if and only if the bytes are
      whole blocks and stand for x, not empty and within the packet size, followed by its own checksum. */
  lemma {:induction false} PacketExact(d: Rx, s: seq<Byte>, x: seq<Byte>, p: nat)
    requires NoZero(s) && d.copy == 0 && Fits(d, p)
    ensures Run(d, s + [0], p).1 == [Delivered(x)]
            <==> 0 < |x| <= p && WholeBlocks(s) && Collected(d, s) == Checked(x)
    decreases |s|
  {
    hide Run, Finish, Checked;
    if s == [] {
      assert s + [0] == [0];
      OneByte(d, 0, p);
      FinishExact(d.mem, 0, x);
    } else {
      var k := if s[0] as int <= |s| then s[0] as int else |s|;
      var block, rest := s[..k], s[k..];
      assert s == block + rest && s + [0] == block + (rest + [0]) && block[1..] == s[1..k];
      BlockBegun(d, block, p);
      RunAppend(d, block, rest + [0], p);
      var mem := d.mem + Implied(d.code) + s[1..k];
      var e := Rx(mem, s[0], s[0] - k);
      if s[0] as int <= |s| {
        CollectedStep(d, s, e);
      }
      if |mem| <= p + CRC_SIZE {
        assert [] + Run(e, rest + [0], p).1 == Run(e, rest + [0], p).1;
        if s[0] as int <= |s| {
          PacketExact(e, rest, x, p);
          assert Run(d, s + [0], p).1 == Run(e, rest + [0], p).1;
        } else {
          assert rest + [0] == [0];
          OneByte(e, 0, p);
          FinishExact(mem, s[0] - k, x);
          assert !WholeBlocks(s);
        }
      } else {
        assert Run(d, s + [0], p).1[0] == Failed(ErrorOverflow);
        assert WholeBlocks(s) ==> |Collected(d, s)| > p + CRC_SIZE;
      }
    }
  }

  lemma RestoredStep(s: seq<Byte>)
    requires s != [] && 0 < s[0] as int <= |s|
    ensures var rest := s[s[0]..];
            && (WholeBlocks(s) <==> WholeBlocks(rest))
            && (WholeBlocks(s) ==>
                  Restored(s) == s[1..s[0]] + if rest == [] then [] else Implied(s[0]) + Restored(rest))
  {
  }

  lemma Regrouped<T>(a: seq<T>, b: seq<T>, c: seq<T>, d: seq<T>)
    ensures a + (b + (c + d)) == a + b + c + d
  {
  }

  lemma CollectedStep(d: Rx, s: seq<Byte>, e: Rx)
    requires s != [] && 0 < s[0] as int <= |s|
    requires e == Rx(d.mem + Implied(d.code) + s[1..s[0]], s[0], 0)
    ensures WholeBlocks(s) <==> WholeBlocks(s[s[0]..])
    ensures WholeBlocks(s) ==> Collected(d, s) == Collected(e, s[s[0]..])
  {
    hide WholeBlocks, Restored, Implied;
    RestoredStep(s);
    var rest := s[s[0]..];
    if WholeBlocks(s) && rest != [] {
      Regrouped(d.mem + Implied(d.code), s[1..s[0]], Implied(s[0]), Restored(rest));
    }
  }

  /** The bytes up to the first one that is not silent. */
  lemma {:induction false} FirstEvent(d: Rx, s: seq<Byte>, p: nat) returns (k: nat)
    requires Run(d, s, p).1 != []
    ensures k < |s| && Run(d, s[..k], p).1 == [] && NoZero(s[..k])
    ensures Run(d, s[..k + 1], p) == (RESTART, [Run(d, s, p).1[0]])
    decreases |s|
  {
    var (e, out) := Step(d, s[0], p);
    if !out.Silent? {
      k := 0;
      assert s[..1] == [s[0]];
      OneByte(d, s[0], p);
    } else {
      k := FirstEvent(e, s[1..], p);
      assert s[..k + 1][1..] == s[1..][..k] && s[..k + 2][1..] == s[1..][..k + 1];
      k := k + 1;
    }
  }

  /** Whatever is on the line, each packet delivered is there: after bytes that leave the decoder restarted,
      as whole blocks that stand for the packet and its own checksum, and a delimiter. */
  lemma {:induction false} DeliveredExact(s: seq<Byte>, i: nat, p: nat)
    returns (a: seq<Byte>, b: seq<Byte>, c: seq<Byte>)
    requires var outs := Run(RESTART, s, p).1; i < |outs| && outs[i].Delivered?
    ensures s == a + b + [0] + c && Run(RESTART, a, p).0 == RESTART && |Run(RESTART, a, p).1| == i
    ensures NoZero(b) && WholeBlocks(b)
    ensures var x := Run(RESTART, s, p).1[i].payload; 0 < |x| <= p && Restored(b) == Checked(x)
    decreases |s|
  {
    hide Run, Finish, Checked, Step, WholeBlocks, Restored, NoZero;
    var k := FirstEvent(RESTART, s, p);
    var t, rest := s[..k + 1], s[k + 1..];
    assert s == t + rest;
    RunAppend(RESTART, t, rest, p);
    if i == 0 {
      a, b, c := [], s[..k], rest;
      NoneFromNothing(RESTART, p);
      assert t == b + [s[k]];
      ZeroDelivers(RESTART, b, s[k], p);
      PacketExact(RESTART, b, Run(RESTART, s, p).1[0].payload, p);
      assert [] + [] + Restored(b) == Restored(b);
      assert a + b + [0] + c == t + rest;
    } else {
      a, b, c := DeliveredExact(rest, i - 1, p);
      RunAppend(RESTART, t, a, p);
      assert s == t + a + b + [0] + c;
      a := t + a;
    }
  }

  /** Only a delimiter delivers. */
  lemma ZeroDelivers(d: Rx, b: seq<Byte>, c: Byte, p: nat)
    requires var outs := Run(d, b + [c], p).1; outs != [] && outs[0].Delivered? && Run(d, b, p).1 == []
    ensures c == 0
  {
    hide Run, Finish;
    RunAppend(d, b, [c], p);
    OneByte(Run(d, b, p).0, c, p);
  }

  /** A delimiter restarts the decoder and is never silent, whatever came before. */
  lemma DelimiterRestarts(d: Rx, s: seq<Byte>, p: nat)
    ensures var (e, outs) := Run(d, s + [0], p); e == RESTART && |outs| > |Run(d, s, p).1|
  {
    RunAppend(d, s, [0], p);
  }

  // ---------- many packets ----------

  function Line(payloads: seq<seq<Byte>>): seq<Byte>
    decreases |payloads|
  {
    if payloads == [] then [] else Encoded(payloads[0]) + Line(payloads[1..])
  }

  function Deliveries(payloads: seq<seq<Byte>>): seq<Out> {
    seq(|payloads|, i requires 0 <= i < |payloads| => Delivered(payloads[i]))
  }

  lemma {:induction false} PacketsDelivered(payloads: seq<seq<Byte>>, p: nat)
    requires forall i :: 0 <= i < |payloads| ==> 0 < |payloads[i]| <= p
    ensures Run(RESTART, Line(payloads), p) == (RESTART, Deliveries(payloads))
    decreases |payloads|
  {
    hide Encoded;
    if payloads != [] {
      PacketDelivered(payloads[0], p);
      PacketsDelivered(payloads[1..], p);
      RunAppend(RESTART, Encoded(payloads[0]), Line(payloads[1..]), p);
      assert Deliveries(payloads) == [Delivered(payloads[0])] + Deliveries(payloads[1..]);
    }
  }

  /** Whatever the decoder was doing, behind the next delimiter every packet is delivered in order. */
  lemma Synchronises(d: Rx, garbage: seq<Byte>, payloads: seq<seq<Byte>>, p: nat)
    requires forall i :: 0 <= i < |payloads| ==> 0 < |payloads[i]| <= p
    ensures Run(d, garbage + [0] + Line(payloads), p) ==
            (RESTART, Run(d, garbage + [0], p).1 + Deliveries(payloads))
  {
    hide Line, Run;
    DelimiterRestarts(d, garbage, p);
    PacketsDelivered(payloads, p);
    RunAppend(d, garbage + [0], Line(payloads), p);
  }

  // ---------- decode() takes a chunk at a time ----------

  /** What one call leaves: how many bytes it used, its status, and the packet if there is one. */
  datatype Taken = Taken(state: Rx, used: nat, status: Status, payload: seq<Byte>)

  function Take(d: Rx, s: seq<Byte>, status: Status, p: nat): (t: Taken)
    ensures t.used <= |s|
    decreases |s|
  {
    if s == [] then Taken(d, 0, status, [])
    else
      var (e, out) := Step(d, s[0], p);
      if out.Delivered? then Taken(e, 1, PacketAvailable, out.payload)
      else
        var t := Take(e, s[1..], if out.Failed? then out.status else status, p);
        t.(used := t.used + 1)
  }

  function Decode(d: Rx, s: seq<Byte>, p: nat): (t: Taken)
    ensures t.used <= |s|
  {
    var t := Take(d, s, Unknown, p);
    if t.status != Unknown then t else t.(status := if s != [] then DataAccepted else DataDropped)
  }

  /** All failures, and the last of them. */
  ghost predicate AllFailed(outs: seq<Out>) {
    forall i :: 0 <= i < |outs| ==> outs[i].Failed? && outs[i].status in {ErrorOverflow, ErrorSize, ErrorCRC}
  }

  function LastStatus(outs: seq<Out>, status: Status): Status {
    if outs != [] && outs[|outs| - 1].Failed? then outs[|outs| - 1].status else status
  }

  /** The call stopped behind the first packet, or took all n bytes and reports the last failure. */
  ghost predicate Ended(t: Taken, e: Rx, outs: seq<Out>, status: Status, n: nat) {
    && t.state == e
    && if t.status == PacketAvailable then
         outs != [] && AllFailed(outs[..|outs| - 1]) && outs[|outs| - 1] == Delivered(t.payload)
       else t.used == n && AllFailed(outs) && t.status == LastStatus(outs, status)
  }

  lemma StepFails(d: Rx, c: Byte, p: nat)
    ensures var out := Step(d, c, p).1; out.Failed? ==> out.status in {ErrorOverflow, ErrorSize, ErrorCRC}
  {
  }

  lemma FailedFirst(t: Taken, e: Rx, out: Out, outs: seq<Out>, status: Status, n: nat)
    requires out.Failed? && out.status in {ErrorOverflow, ErrorSize, ErrorCRC} && Ended(t, e, outs, out.status, n)
    ensures Ended(t.(used := t.used + 1), e, [out] + outs, status, n + 1)
  {
    if outs != [] {
      assert ([out] + outs)[..|outs|] == [out] + outs[..|outs| - 1];
    }
  }

  lemma {:induction false} TakeIsRun(d: Rx, s: seq<Byte>, status: Status, p: nat)
    requires status != PacketAvailable
    ensures var t := Take(d, s, status, p);
            var (e, outs) := Run(d, s[..t.used], p);
            Ended(t, e, outs, status, |s|)
    decreases |s|
  {
    hide Step, Ended;
    var t := Take(d, s, status, p);
    if s == [] {
      NothingTaken(d, status);
      NoneFromNothing(d, p);
    } else {
      var (e, out) := Step(d, s[0], p);
      StepFails(d, s[0], p);
      assert s[..t.used][1..] == s[1..][..t.used - 1];
      if out.Delivered? {
        PacketTaken(e, out.payload, status, |s|);
        NoneFromNothing(e, p);
        assert [out] + [] == [out];
      } else {
        TakeIsRun(e, s[1..], if out.Failed? then out.status else status, p);
        var (e2, outs) := Run(e, s[1..][..t.used - 1], p);
        var t2 := Take(e, s[1..], if out.Failed? then out.status else status, p);
        if out.Failed? {
          FailedFirst(t2, e2, out, outs, status, |s| - 1);
        } else {
          SilentFirst(t2, e2, outs, status, |s| - 1);
        }
      }
    }
  }

  lemma SilentFirst(t: Taken, e: Rx, outs: seq<Out>, status: Status, n: nat)
    requires Ended(t, e, outs, status, n)
    ensures Ended(t.(used := t.used + 1), e, outs, status, n + 1)
  {
  }

  lemma PacketTaken(d: Rx, payload: seq<Byte>, status: Status, n: nat)
    ensures Ended(Taken(d, 1, PacketAvailable, payload), d, [Delivered(payload)], status, n)
  {
  }

  lemma NothingTaken(d: Rx, status: Status)
    requires status != PacketAvailable
    ensures Ended(Taken(d, 0, status, []), d, [], status, 0)
  {
  }

  lemma NoneFromNothing(d: Rx, p: nat)
    ensures Run(d, [], p) == (d, [])
  {
  }

  /** The payloads of all packets delivered. */
  function Payloads(outs: seq<Out>): seq<seq<Byte>>
    decreases |outs|
  {
    if outs == [] then []
    else (if outs[0].Delivered? then [outs[0].payload] else []) + Payloads(outs[1..])
  }

  /** The caller repeats decode() on what is left as long as it reports a packet. */
  function Drain(d: Rx, s: seq<Byte>, p: nat): (Rx, seq<seq<Byte>>)
    decreases |s|
  {
    var t := Decode(d, s, p);
    if t.status != PacketAvailable || t.used == 0 then (t.state, [])
    else
      var (e, rest) := Drain(t.state, s[t.used..], p);
      (e, [t.payload] + rest)
  }

  function DrainAll(d: Rx, chunks: seq<seq<Byte>>, p: nat): (Rx, seq<seq<Byte>>)
    decreases |chunks|
  {
    if chunks == [] then (d, [])
    else
      var (e, first) := Drain(d, chunks[0], p);
      var (last, rest) := DrainAll(e, chunks[1..], p);
      (last, first + rest)
  }

  function Joined(chunks: seq<seq<Byte>>): seq<Byte>
    decreases |chunks|
  {
    if chunks == [] then [] else chunks[0] + Joined(chunks[1..])
  }

  lemma {:induction false} PayloadsAppend(a: seq<Out>, b: seq<Out>)
    ensures Payloads(a + b) == Payloads(a) + Payloads(b)
    decreases |a|
  {
    if a == [] {
      assert a + b == b;
    } else {
      assert (a + b)[1..] == a[1..] + b;
      PayloadsAppend(a[1..], b);
      var first := if a[0].Delivered? then [a[0].payload] else [];
      assert first + (Payloads(a[1..]) + Payloads(b)) == first + Payloads(a[1..]) + Payloads(b);
    }
  }

  lemma {:induction false} FailuresCarryNothing(outs: seq<Out>)
    requires AllFailed(outs)
    ensures Payloads(outs) == []
    decreases |outs|
  {
    if outs != [] {
      FailuresCarryNothing(outs[1..]);
    }
  }

  lemma {:induction false} DrainIsRun(d: Rx, s: seq<Byte>, p: nat)
    ensures Drain(d, s, p) == (Run(d, s, p).0, Payloads(Run(d, s, p).1))
    decreases |s|
  {
    hide Run, Take, Payloads, AllFailed;
    TakeIsRun(d, s, Unknown, p);
    var t := Decode(d, s, p);
    assert s == s[..t.used] + s[t.used..];
    var (e, outs) := Run(d, s[..t.used], p);
    if t.status == PacketAvailable {
      NoneFromNothing(d, p);
      DrainIsRun(e, s[t.used..], p);
      RunAppend(d, s[..t.used], s[t.used..], p);
      PacketLast(outs, t.payload);
      PayloadsAppend(outs, Run(e, s[t.used..], p).1);
    } else {
      assert s[..t.used] == s;
      FailuresCarryNothing(outs);
    }
  }

  lemma PacketLast(outs: seq<Out>, payload: seq<Byte>)
    requires outs != [] && AllFailed(outs[..|outs| - 1]) && outs[|outs| - 1] == Delivered(payload)
    ensures Payloads(outs) == [payload]
  {
    assert outs == outs[..|outs| - 1] + [outs[|outs| - 1]];
    FailuresCarryNothing(outs[..|outs| - 1]);
    PayloadsAppend(outs[..|outs| - 1], [outs[|outs| - 1]]);
    assert Payloads([outs[|outs| - 1]][1..]) == [];
  }

  lemma {:induction false} DrainAllIsRun(d: Rx, chunks: seq<seq<Byte>>, p: nat)
    ensures DrainAll(d, chunks, p) == (Run(d, Joined(chunks), p).0, Payloads(Run(d, Joined(chunks), p).1))
    decreases |chunks|
  {
    hide Run, Drain, Payloads;
    if chunks == [] {
      NoneFromNothing(d, p);
      FailuresCarryNothing([]);
    } else {
      DrainIsRun(d, chunks[0], p);
      var (e, outs) := Run(d, chunks[0], p);
      DrainAllIsRun(e, chunks[1..], p);
      RunAppend(d, chunks[0], Joined(chunks[1..]), p);
      PayloadsAppend(outs, Run(e, Joined(chunks[1..]), p).1);
    }
  }

  lemma {:induction false} DeliveriesCarryAll(payloads: seq<seq<Byte>>)
    ensures Payloads(Deliveries(payloads)) == payloads
    decreases |payloads|
  {
    if payloads != [] {
      assert Deliveries(payloads)[1..] == Deliveries(payloads[1..]);
      DeliveriesCarryAll(payloads[1..]);
    }
  }

  /** Packets back to back, behind anything that ends in a delimiter, cut into chunks in any way: what
      the caller gets is what the garbage may still hold and then exactly the payloads, in order. */
  lemma LineDelivered(d: Rx, garbage: seq<Byte>, payloads: seq<seq<Byte>>, chunks: seq<seq<Byte>>, p: nat)
    requires forall i :: 0 <= i < |payloads| ==> 0 < |payloads[i]| <= p
    requires Joined(chunks) == garbage + [0] + Line(payloads)
    ensures DrainAll(d, chunks, p) == (RESTART, Payloads(Run(d, garbage + [0], p).1) + payloads)
  {
    hide Run, Joined, DrainAll, Line, Payloads;
    DrainAllIsRun(d, chunks, p);
    Synchronises(d, garbage, payloads, p);
    PayloadsAppend(Run(d, garbage + [0], p).1, Deliveries(payloads));
    DeliveriesCarryAll(payloads);
  }

  // ---------- the statuses of the calls ----------

  /** decode() called once on each chunk. */
  function Calls(d: Rx, chunks: seq<seq<Byte>>, p: nat): (ts: seq<Taken>)
    ensures |ts| == |chunks|
    decreases |chunks|
  {
    if chunks == [] then []
    else
      var t := Decode(d, chunks[0], p);
      [t] + Calls(t.state, chunks[1..], p)
  }

  /** Up to its delimiter a packet is silent. */
  lemma PrefixSilent(a: seq<Byte>, b: seq<Byte>, payload: seq<Byte>, p: nat)
    requires 0 < |payload| <= p && a + b == Encoded(payload) && b != []
    ensures Run(RESTART, a, p).1 == []
  {
    hide Run, Stuff, Checked;
    PacketDelivered(payload, p);
    RunAppend(RESTART, a, b, p);
    var e := Run(RESTART, a, p).0;
    assert b[|b| - 1] == Encoded(payload)[|a| + |b| - 1] == 0;
    assert b == b[..|b| - 1] + [0];
    DelimiterRestarts(e, b[..|b| - 1], p);
  }

  /** One chunk of a packet of which a has been taken already. */
  lemma ChunkStatus(a: seq<Byte>, chunk: seq<Byte>, b: seq<Byte>, payload: seq<Byte>, p: nat)
    requires 0 < |payload| <= p && a + chunk + b == Encoded(payload)
    ensures var t := Decode(Run(RESTART, a, p).0, chunk, p);
            && t.used == |chunk| && t.state == Run(RESTART, a + chunk, p).0
            && (t.status == PacketAvailable <==> chunk != [] && b == [])
            && (t.status == DataDropped <==> chunk == [])
            && (t.status == DataAccepted <==> chunk != [] && b != [])
            && (t.status == PacketAvailable ==> t.payload == payload)
  {
    hide Run, Encoded, Take;
    var d := Run(RESTART, a, p).0;
    var t := Decode(d, chunk, p);
    TakeIsRun(d, chunk, Unknown, p);
    NoneFromNothing(d, p);
    var front := chunk[..t.used];
    RunAppend(RESTART, a, front, p);
    var rest := chunk[t.used..] + b;
    assert a + front + rest == Encoded(payload);
    if rest != [] {
      PrefixSilent(a + front, rest, payload, p);
    } else {
      assert a + front == Encoded(payload);
      PacketDelivered(payload, p);
      if chunk != [] {
        assert a + chunk == Encoded(payload);
        PrefixSilent(a, chunk, payload, p);
        assert [] + Run(d, front, p).1 == Run(d, front, p).1;
      }
    }
    if t.used == |chunk| {
      assert front == chunk;
    }
  }

  /** One packet in any chunks: every call uses its whole chunk, the one with the delimiter reports the
      packet, all others report that data was accepted, or dropped if there was none. */
  lemma {:induction false} ChunkedPacket(a: seq<Byte>, chunks: seq<seq<Byte>>, payload: seq<Byte>, p: nat, i: nat)
    requires 0 < |payload| <= p && a + Joined(chunks) == Encoded(payload) && i < |chunks|
    ensures var t := Calls(Run(RESTART, a, p).0, chunks, p)[i];
            && t.used == |chunks[i]|
            && t.status == (if chunks[i] == [] then DataDropped
                            else if Joined(chunks[i + 1..]) == [] then PacketAvailable else DataAccepted)
            && (t.status == PacketAvailable ==> t.payload == payload)
    decreases |chunks|
  {
    hide Run, Encoded, Decode;
    var rest := Joined(chunks[1..]);
    assert a + chunks[0] + rest == Encoded(payload);
    ChunkStatus(a, chunks[0], rest, payload, p);
    if i > 0 {
      ChunkedPacket(a + chunks[0], chunks[1..], payload, p, i - 1);
      assert chunks[1..][i..] == chunks[i + 1..];
    }
  }

  lemma {:induction false} PayloadAt(outs: seq<Out>, x: seq<Byte>) returns (i: nat)
    requires x in Payloads(outs)
    ensures i < |outs| && outs[i] == Delivered(x)
    decreases |outs|
  {
    if outs[0] == Delivered(x) {
      i := 0;
    } else {
      i := PayloadAt(outs[1..], x);
      i := i + 1;
    }
  }

  /** Whatever the chunks, what the caller gets from a fresh decoder was on the line with its own checksum. */
  lemma HandedOut(chunks: seq<seq<Byte>>, x: seq<Byte>, p: nat) returns (a: seq<Byte>, b: seq<Byte>, c: seq<Byte>)
    requires x in DrainAll(RESTART, chunks, p).1
    ensures Joined(chunks) == a + b + [0] + c && Run(RESTART, a, p).0 == RESTART
    ensures NoZero(b) && WholeBlocks(b) && 0 < |x| <= p && Restored(b) == Checked(x)
  {
    hide Run, Payloads, DrainAll, WholeBlocks, Restored, Checked, NoZero;
    DrainAllIsRun(RESTART, chunks, p);
    var i := PayloadAt(Run(RESTART, Joined(chunks), p).1, x);
    a, b, c := DeliveredExact(Joined(chunks), i, p);
  }
}
