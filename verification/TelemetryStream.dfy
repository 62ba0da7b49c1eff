/** The telemetry value stream: what bytes a set of transmitted slots becomes. */
module TelemetryStream {
  import opened Bytes

  // ---------- the field table ----------

  const SLOTS_SIZE: nat := 240

  const FMT_BIT: Byte := 5
  const FMT_U4: Byte := 6

  const SEQ_ALWAYS := 0
  const SEQ_SKIP := 1
  const SEQ_RARE := 2

  type Uid = u: nat | u < 2048
  type Pri = p: nat | p < 8
  type Seq2 = s: nat | s < 4

  datatype Field = Field(uid: Uid, pri: Pri, seq2: Seq2, fmt: Byte)

  /** How many bytes unpack_value() takes and pack_value() has written; zero for fmt_none, fmt_bit and
      numbers that name no format. */
  function Size(fmt: Byte): nat {
    if fmt in {1, 6, 9, 10, 11, 12, 13, 14, 15, 18, 19, 21} then 1
    else if fmt in {2, 8, 16, 17, 20} then 2
    else if fmt in {3, 4, 7} then 4
    else 0
  }

  /** What pack_value() returns for each format, in the order of their numbers. */
  const PACKED_SIZES: seq<nat> := [0, 1, 2, 4, 4, 0, 1, 4, 2, 1, 1, 1, 1, 1, 1, 1, 2, 2, 1, 1, 2, 1]

  /** Both sides count the same bytes for every format. */
  lemma SizesAgree(fmt: Byte)
    ensures Size(fmt) == if (fmt as int) < |PACKED_SIZES| then PACKED_SIZES[fmt] else 0
  {
  }

  /** The index of the first bitfield, or the length of the table. */
  function FirstBit(fields: seq<Field>): (n: nat)
    ensures n <= |fields| && (n < |fields| ==> fields[n].fmt == FMT_BIT)
    ensures forall i :: 0 <= i < n ==> fields[i].fmt != FMT_BIT
  {
    if fields == [] || fields[0].fmt == FMT_BIT then 0
    else
      var n := FirstBit(fields[1..]);
      assert forall i :: 0 < i < n + 1 ==> fields[i] == fields[1..][i - 1];
      n + 1
  }

  /** Ordinary fields, then four-bit fields, then bitfields. */
  ghost predicate Zoned(fields: seq<Field>) {
    && (forall i :: FirstBit(fields) <= i < |fields| ==> fields[i].fmt == FMT_BIT)
    && (forall i, j :: 0 <= i < j < FirstBit(fields) && fields[i].fmt == FMT_U4 ==> fields[j].fmt == FMT_U4)
  }

  /** The frame-rate filter. */
  predicate Due(f: Field, pseq: Byte) {
    if f.seq2 == SEQ_SKIP then pseq % 2 == 0
    else if f.seq2 == SEQ_RARE then pseq % 4 == 0
    else true
  }

  /** When everything is due at once: at every number divisible by four, and whenever a rare slot is due. */
  lemma DueTogether(f: Field, g: Field, pseq: Byte)
    ensures pseq % 4 == 0 ==> Due(f, pseq)
    ensures f.seq2 == SEQ_RARE && Due(f, pseq) ==> Due(g, pseq)
  {
  }

  function NextPseq(pseq: Byte): Byte {
    (pseq + 1) % 256
  }

  /** In how many of the n packets from number pseq on a slot is due. */
  function TimesDue(f: Field, pseq: Byte, n: nat): nat
    decreases n
  {
    if n == 0 then 0 else (if Due(f, pseq) then 1 else 0) + TimesDue(f, NextPseq(pseq), n - 1)
  }

  lemma NextPseqMod(pseq: Byte)
    ensures NextPseq(pseq) % 4 == if pseq % 4 == 3 then 0 else pseq % 4 + 1
  {
  }

  /** Of any four packets in sequence a rare slot is due in one, a skip slot in every other one, any other
      slot in all. */
  lemma DueRates(f: Field, pseq: Byte)
    ensures TimesDue(f, pseq, 4) == if f.seq2 == SEQ_RARE then 1 else if f.seq2 == SEQ_SKIP then 2 else 4
    ensures f.seq2 == SEQ_SKIP ==> (Due(f, pseq) <==> !Due(f, NextPseq(pseq)))
  {
    hide NextPseq, Due;
    var p1 := NextPseq(pseq);
    var p2 := NextPseq(p1);
    var p3 := NextPseq(p2);
    NextPseqMod(pseq);
    NextPseqMod(p1);
    NextPseqMod(p2);
    DueByFour(f, pseq);
    DueByFour(f, p1);
    DueByFour(f, p2);
    DueByFour(f, p3);
    assert TimesDue(f, NextPseq(p3), 0) == 0;
    assert TimesDue(f, p3, 1) == if Due(f, p3) then 1 else 0;
    assert TimesDue(f, p2, 2) == (if Due(f, p2) then 1 else 0) + TimesDue(f, p3, 1);
    assert TimesDue(f, p1, 3) == (if Due(f, p1) then 1 else 0) + TimesDue(f, p2, 2);
  }

  lemma DueByFour(f: Field, pseq: Byte)
    ensures Due(f, pseq) <==> (f.seq2 == SEQ_SKIP ==> pseq % 4 in {0, 2}) && (f.seq2 == SEQ_RARE ==> pseq % 4 == 0)
  {
  }

  // ---------- the stream of a set of transmitted slots ----------

  /** One packet to be encoded: tx marks the slots to transmit, blocks their packed values. */
  datatype Job = Job(fields: seq<Field>, pseq: Byte, tx: seq<bool>, blocks: seq<seq<Byte>>) {
    ghost predicate Valid() {
      && |tx| == |blocks| == |fields| <= SLOTS_SIZE && Zoned(fields)
      && (forall i :: 0 <= i < |fields| ==> |blocks[i]| == Size(fields[i].fmt))
      && (forall i :: 0 <= i < |fields| && tx[i] ==> i < N() && Due(fields[i], pseq))
    }

    function N(): nat { FirstBit(fields) }

    /** The slot takes a bit of a presence code. */
    predicate Coded(i: nat)
      requires i < |fields|
    {
      Due(fields[i], pseq)
    }
  }

  /** The low four bits of a packed value. */
  function Nibble(job: Job, i: nat): nat
    requires job.Valid() && i < |job.fields|
  {
    if job.blocks[i] == [] then 0 else job.blocks[i][0] % 16
  }

  function Count(job: Job, i: nat): nat
    requires job.Valid()
    decreases |job.fields| - i
  {
    if i >= job.N() then 0 else (if job.tx[i] then 1 else 0) + Count(job, i + 1)
  }

  /** The presence code of the next k coded slots from i on, lowest bit first. */
  function Code(job: Job, i: nat, k: nat): (c: nat)
    requires job.Valid()
    ensures c < Pow2(k)
    decreases |job.fields| - i
  {
    if i >= job.N() || k == 0 then 0
    else if !job.Coded(i) then Code(job, i + 1, k)
    else (if job.tx[i] then 1 else 0) + 2 * Code(job, i + 1, k - 1)
  }

  /** The nibble that joins a half-filled byte: the next transmitted slot of the code, if it is a
      four-bit one. */
  function High(job: Job, i: nat, k: nat): (v: nat)
    requires job.Valid()
    ensures v < 16
    decreases |job.fields| - i
  {
    if i >= job.N() || k == 0 then 0
    else if !job.Coded(i) then High(job, i + 1, k)
    else if !job.tx[i] then High(job, i + 1, k - 1)
    else if job.fields[i].fmt == FMT_U4 then Nibble(job, i)
    else 0
  }

  /** The data of the next k coded slots; `half` says that a byte with a free upper half precedes. */
  function Data(job: Job, i: nat, k: nat, half: bool): seq<Byte>
    requires job.Valid()
    decreases |job.fields| - i
  {
    if i >= job.N() || k == 0 then []
    else if !job.Coded(i) then Data(job, i + 1, k, half)
    else if !job.tx[i] then Data(job, i + 1, k - 1, half)
    else if job.fields[i].fmt != FMT_U4 then job.blocks[i] + Data(job, i + 1, k - 1, false)
    else if half then Data(job, i + 1, k - 1, false)
    else [Nibble(job, i) + 16 * High(job, i + 1, k - 1)] + Data(job, i + 1, k - 1, true)
  }

  /** The index behind the next k coded slots. */
  function After(job: Job, i: nat, k: nat): (r: nat)
    requires job.Valid()
    ensures r >= i && (i <= job.N() ==> r <= job.N())
    decreases |job.fields| - i
  {
    if i >= job.N() || k == 0 then i
    else if !job.Coded(i) then After(job, i + 1, k)
    else After(job, i + 1, k - 1)
  }

  function FirstCoded(job: Job, i: nat): (r: nat)
    requires job.Valid()
    ensures r >= i && (i <= job.N() ==> r <= job.N())
    ensures forall j :: i <= j < r && j < job.N() ==> !job.Coded(j)
    ensures r < job.N() ==> job.Coded(r)
    decreases |job.fields| - i
  {
    if i >= job.N() || job.Coded(i) then i else FirstCoded(job, i + 1)
  }

  function FirstTx(job: Job, i: nat): (r: nat)
    requires job.Valid()
    ensures r >= i && (i <= job.N() ==> r <= job.N())
    ensures forall j :: i <= j < r && j < job.N() ==> !job.tx[j]
    ensures r < job.N() ==> job.tx[r]
    decreases |job.fields| - i
  {
    if i >= job.N() || job.tx[i] then i else FirstTx(job, i + 1)
  }

  /** A distance in 7-bit pieces; a full piece announces another one. */
  function Offset(d: nat): seq<Byte> {
    if d < 127 then [128 + d] else [255] + Offset(d - 127)
  }

  /** From slot i, where a new presence code is due: a code with its data, or, when the whole code
      would be zero, the distance to the next transmitted slot and that slot alone. */
  function Emit(job: Job, i: nat): seq<Byte>
    requires job.Valid()
    decreases |job.fields| - i
  {
    var t := FirstTx(job, i);
    if t >= job.N() then []
    else if Code(job, i, 7) != 0 then
      AfterAdvances(job, i, 7);
      assert Pow2(7) == 128;
      [Code(job, i, 7)] + Data(job, i, 7, false) + Emit(job, After(job, i, 7))
    else
      assert job.Coded(t);
      Offset(t - FirstCoded(job, i)) + Data(job, t, 1, false) + Emit(job, t + 1)
  }

  lemma {:induction false} AfterAdvances(job: Job, i: nat, k: nat)
    requires job.Valid() && i < job.N() && k > 0
    ensures After(job, i, k) > i
  {
  }

  /** Eight bitfields to a byte, lowest bit first. */
  function BitByte(bits: seq<bool>): (b: nat)
    ensures b < Pow2(|bits|)
    decreases |bits|
  {
    if bits == [] then 0 else (if bits[0] then 1 else 0) + 2 * BitByte(bits[1..])
  }

  function BitTail(bits: seq<bool>): seq<Byte>
    decreases |bits|
  {
    if bits == [] then []
    else
      var head := if |bits| <= 8 then bits else bits[..8];
      PowerGrows(|head|, 8);
      assert Pow2(8) == 256;
      [BitByte(head)] + BitTail(bits[|head|..])
  }

  lemma {:induction false} BitByteSnoc(head: seq<bool>, v: bool)
    ensures BitByte(head + [v]) == BitByte(head) + if v then Pow2(|head|) else 0
    decreases |head|
  {
    if head == [] {
      assert BitByte([v][1..]) == 0;
    } else {
      assert (head + [v])[1..] == head[1..] + [v];
      BitByteSnoc(head[1..], v);
    }
  }

  lemma TailShort(bits: seq<bool>)
    requires 0 < |bits| <= 8
    ensures BitTail(bits) == [BitByte(bits)]
  {
    assert bits[|bits|..] == [];
    if |bits| == 8 {
      assert bits[..8] == bits;
    }
  }

  lemma TailLong(bits: seq<bool>)
    requires |bits| >= 8
    ensures BitTail(bits) == [BitByte(bits[..8])] + BitTail(bits[8..])
  {
    if |bits| == 8 {
      assert bits[..8] == bits;
    }
  }

  /** The tail with its last byte raised by v. */
  function Raised(t: seq<Byte>, v: nat): seq<int>
    requires t != []
  {
    t[..|t| - 1] + [t[|t| - 1] + v]
  }

  /** One more bitfield starts a new byte after eight, or sets its bit in the last byte. */
  lemma {:induction false} BitTailSnoc(bits: seq<bool>, v: bool)
    ensures |bits| % 8 == 0 ==> BitTail(bits + [v]) == BitTail(bits) + [if v then 1 else 0]
    ensures |bits| % 8 != 0 ==>
              var t := BitTail(bits);
              && t != [] && t[|t| - 1] < Pow2(|bits| % 8) <= 128
              && BitTail(bits + [v]) == Raised(t, if v then Pow2(|bits| % 8) else 0)
    decreases |bits|
  {
    hide BitTail, BitByte, Pow2;
    var r := bits + [v];
    if |bits| < 8 {
      BitByteSnoc(bits, v);
      TailShort(r);
      if bits == [] {
        NoBits();
      } else {
        TailShort(bits);
        PowerGrows(|bits|, 7);
        SevenBits();
      }
    } else {
      var rest := bits[8..];
      assert r[..8] == bits[..8] && r[8..] == rest + [v];
      BitTailSnoc(rest, v);
      TailLong(bits);
      TailLong(r);
    }
  }

  lemma NoBits()
    ensures BitTail([]) == [] && BitByte([]) == 0 && Pow2(0) == 1
  {
  }

  lemma SevenBits()
    ensures Pow2(7) == 128
  {
  }

  /** The whole value part of a packet: the number of transmitted slots, their codes and data, and
      all bitfields. */
  function Stream(job: Job, bits: seq<bool>): seq<Byte>
    requires job.Valid() && |bits| == |job.fields| - job.N()
  {
    CountBound(job, 0);
    [Count(job, 0)] + Emit(job, 0) + BitTail(bits)
  }

  lemma {:induction false} CountBound(job: Job, i: nat)
    requires job.Valid() && i <= job.N()
    ensures Count(job, i) <= job.N() - i < 256
    decreases job.N() - i
  {
    if i < job.N() {
      CountBound(job, i + 1);
    }
  }

  // One step of the recursive definitions.

  lemma UncodedSlot(job: Job, i: nat, k: nat, half: bool)
    requires job.Valid() && i < job.N() && k > 0 && !job.Coded(i)
    ensures Code(job, i, k) == Code(job, i + 1, k) && High(job, i, k) == High(job, i + 1, k)
    ensures Data(job, i, k, half) == Data(job, i + 1, k, half) && After(job, i, k) == After(job, i + 1, k)
    ensures Count(job, i) == Count(job, i + 1) && !job.tx[i]
  {
  }

  lemma SilentSlot(job: Job, i: nat, k: nat, half: bool)
    requires job.Valid() && i < job.N() && k > 0 && job.Coded(i) && !job.tx[i]
    ensures Code(job, i, k) == 2 * Code(job, i + 1, k - 1) && High(job, i, k) == High(job, i + 1, k - 1)
    ensures Data(job, i, k, half) == Data(job, i + 1, k - 1, half)
    ensures After(job, i, k) == After(job, i + 1, k - 1) && Count(job, i) == Count(job, i + 1)
  {
  }

  lemma SentSlot(job: Job, i: nat, k: nat)
    requires job.Valid() && i < job.N() && k > 0 && job.tx[i]
    ensures Code(job, i, k) == 1 + 2 * Code(job, i + 1, k - 1)
    ensures After(job, i, k) == After(job, i + 1, k - 1) && Count(job, i) == 1 + Count(job, i + 1)
    ensures job.fields[i].fmt != FMT_U4 ==> forall half ::
              Data(job, i, k, half) == job.blocks[i] + Data(job, i + 1, k - 1, false)
    ensures job.fields[i].fmt == FMT_U4 ==>
              && High(job, i, k) == Nibble(job, i)
              && Data(job, i, k, true) == Data(job, i + 1, k - 1, false)
              && Data(job, i, k, false) ==
                   [Nibble(job, i) + 16 * High(job, i + 1, k - 1)] + Data(job, i + 1, k - 1, true)
  {
    assert job.Coded(i);
  }

  lemma OnlyNibblesFollow(job: Job, i: nat)
    requires job.Valid() && i < job.N() && job.fields[i].fmt == FMT_U4
    ensures forall j :: i <= j < job.N() ==> job.fields[j].fmt == FMT_U4
  {
  }

  /** A presence code with nothing set covers at least seven slots. */
  lemma {:induction false} ZeroCodeSpan(job: Job, i: nat, k: nat)
    requires job.Valid() && Code(job, i, k) == 0 && FirstTx(job, i) < job.N()
    ensures FirstTx(job, i) >= FirstCoded(job, i) + k
    ensures i < job.N() && job.Coded(i) ==> FirstCoded(job, i) == i
    decreases |job.fields| - i
  {
    assert job.Coded(FirstTx(job, i));
    if k > 0 {
      if !job.Coded(i) {
        ZeroCodeSpan(job, i + 1, k);
      } else {
        ZeroCodeSpan(job, i + 1, k - 1);
      }
    }
  }

  lemma UncodedEmit(job: Job, i: nat)
    requires job.Valid() && i < job.N() && !job.Coded(i)
    ensures Emit(job, i) == Emit(job, i + 1)
  {
    hide Data, Code, High, Count, After, FirstBit, Zoned;
    UncodedSlot(job, i, 7, false);
    assert FirstTx(job, i) == FirstTx(job, i + 1);
    assert FirstTx(job, i) < job.N() ==> FirstCoded(job, i) == FirstCoded(job, i + 1);
  }

  /** A code with a bit set is emitted as it stands. */
  lemma {:induction false} CodeEmitted(job: Job, i: nat)
    requires job.Valid() && Code(job, i, 7) != 0
    ensures Emit(job, i) ==
            (assert Pow2(7) == 128; [Code(job, i, 7)]) + Data(job, i, 7, false) + Emit(job, After(job, i, 7))
  {
    SomeTx(job, i, 7);
  }

  lemma {:induction false} SomeTx(job: Job, i: nat, k: nat)
    requires job.Valid() && Code(job, i, k) != 0
    ensures FirstTx(job, i) < job.N()
    decreases |job.fields| - i
  {
    if !job.tx[i] {
      SomeTx(job, i + 1, if job.Coded(i) then k - 1 else k);
    }
  }

  /** A zero code at slot i is replaced by the distance to the next transmitted slot t. */
  lemma JumpEmitted(job: Job, i: nat, t: nat)
    requires job.Valid() && Code(job, i, 7) == 0 && i <= t < job.N() && job.Coded(i) && job.tx[t]
    requires forall j :: i <= j < t ==> !job.tx[j]
    ensures t >= i + 7
    ensures Emit(job, i) == Offset(t - i) + Data(job, t, 1, false) + Emit(job, t + 1)
  {
    assert FirstTx(job, i) == t;
    ZeroCodeSpan(job, i, 7);
  }
}
