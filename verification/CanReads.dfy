/** Everything the codec hands out when it is asked until nothing is left. */
module CanReads {
  import opened Bytes
  import opened CanFormat
  import opened CanMap
  import opened CanCodec
  import Crc32

  datatype Reading = Reading(out: seq<Byte>, src: Src)

  /** The bytes of a finished packet, read into sz bytes. */
  function PacketBytes(p: Packet, sz: nat): seq<Byte> {
    CopyChunks(Le16(p.key.pid), p.chunks, p.dlc, sz)
  }

  /** What the codec hands out for one finished packet: nothing if more than ten bytes were copied and their
      checksum is wrong. */
  function Result(p: Packet, sz: nat): multiset<Reading> {
    var out := PacketBytes(p, sz);
    if |out| <= 10 then multiset{Reading(out, p.key.src)}
    else if ChecksumOk(out) then multiset{Reading(out[..|out| - 2], p.key.src)}
    else multiset{}
  }

  // ---------- what is handed out without a checksum test ----------

  /** A single frame; three or more frames read into less than 18 bytes; or two frames of which the second
      does not fit behind the first or claims more than its eight bytes. */
  predicate Unchecked(p: Packet, sz: nat) {
    if |p.chunks| == 1 then true
    else if |p.chunks| == 2 then p.dlc > 8 || sz < 10 + p.dlc
    else sz < 18
  }

  lemma {:induction false} FinishedShape(slots: seq<Slot>, p: Packet)
    requires Consistent(slots) && p in DoneBag(slots)
    ensures p.chunks != [] && p.dlc > 0
    decreases |slots|
  {
    hide OpenMap;
    if p !in Finished(slots[0]) {
      FinishedShape(slots[1..], p);
    }
  }

  /** The test goes by the number of bytes copied, so this is exactly what escapes it. */
  lemma UncheckedExact(p: Packet, sz: nat)
    requires p.chunks != [] && p.dlc > 0 && sz >= 2
    ensures |PacketBytes(p, sz)| <= 10 <==> Unchecked(p, sz)
    ensures Unchecked(p, sz) ==> Result(p, sz) == multiset{Reading(PacketBytes(p, sz), p.key.src)}
  {
    hide CopyChunks, Result;
    CopyOnce(Le16(p.key.pid), p.chunks, p.dlc, sz);
    if |p.chunks| > 1 && sz >= 10 {
      var out := Le16(p.key.pid) + p.chunks[0];
      CopyOnce(out, p.chunks[1..], p.dlc, sz);
      if |p.chunks| > 2 && sz >= 18 {
        CopyGrows(out + p.chunks[1], p.chunks[1..][1..], p.dlc, sz);
      }
    }
    FewBytes(p, sz);
  }

  /** The packet gives this reading: its bytes as they are, if it escapes the test; otherwise they must be
      what is handed out followed by its own checksum. */
  ghost predicate Yields(p: Packet, sz: nat, r: Reading) {
    && r.src == p.key.src
    && if Unchecked(p, sz) then PacketBytes(p, sz) == r.out else PacketBytes(p, sz) == WithCrc(r.out)
  }

  lemma YieldsExact(p: Packet, sz: nat, r: Reading)
    requires p.chunks != [] && p.dlc > 0 && sz >= 2
    ensures r in Result(p, sz) <==> Yields(p, sz, r)
  {
    hide Unchecked, PacketBytes, WithCrc, ChecksumOk;
    UncheckedExact(p, sz);
    var out := PacketBytes(p, sz);
    if |out| > 10 {
      ChecksumExact(out, out[..|out| - 2]);
      if out == WithCrc(r.out) {
        WithCrcLength(r.out);
        ChecksumExact(out, r.out);
      }
    }
  }

  lemma WithCrcLength(packet: seq<Byte>)
    ensures |WithCrc(packet)| == |packet| + 2 && WithCrc(packet)[..|packet|] == packet
  {
    hide Crc32.PacketCrc;
  }

  lemma CopyOnce(out: seq<Byte>, chunks: seq<Chunk>, dlc: Byte, sz: nat)
    requires chunks != []
    ensures |chunks| > 1 ==>
              CopyChunks(out, chunks, dlc, sz)
              == if |out| + 8 > sz then out else CopyChunks(out + chunks[0], chunks[1..], dlc, sz)
    ensures |chunks| == 1 ==>
              CopyChunks(out, chunks, dlc, sz)
              == if dlc <= 8 && |out| + dlc <= sz then out + chunks[0][..dlc] else out
  {
  }

  lemma FewBytes(p: Packet, sz: nat)
    ensures |PacketBytes(p, sz)| <= 10 ==> Result(p, sz) == multiset{Reading(PacketBytes(p, sz), p.key.src)}
  {
  }

  // ---------- what is handed out for all finished packets ----------

  ghost function Results(bag: multiset<Packet>, sz: nat): multiset<Reading>
    decreases |bag|
  {
    if bag == multiset{} then multiset{}
    else
      var p :| p in bag;
      Result(p, sz) + Results(bag - multiset{p}, sz)
  }

  lemma OneTaken(bag: multiset<Packet>, sz: nat) returns (p: Packet)
    requires bag != multiset{}
    ensures p in bag && Results(bag, sz) == Result(p, sz) + Results(bag - multiset{p}, sz)
  {
    hide Result;
    p :| p in bag && Results(bag, sz) == Result(p, sz) + Results(bag - multiset{p}, sz);
  }

  lemma TwoTaken<T>(bag: multiset<T>, p: T, q: T)
    requires p in bag && q in bag && p != q
    ensures bag - multiset{p} - multiset{q} == bag - multiset{q} - multiset{p}
    ensures q in bag - multiset{p} && p in bag - multiset{q}
  {
  }

  lemma Swap<T>(x: multiset<T>, y: multiset<T>, z: multiset<T>)
    ensures x + (y + z) == y + (x + z)
  {
  }

  /** The order in which packets are taken does not matter. */
  lemma {:induction false} ResultsTake(bag: multiset<Packet>, q: Packet, sz: nat)
    requires q in bag
    ensures Results(bag, sz) == Result(q, sz) + Results(bag - multiset{q}, sz)
    decreases |bag|
  {
    hide Result, Results;
    var p := OneTaken(bag, sz);
    if p != q {
      TwoTaken(bag, p, q);
      ResultsTake(bag - multiset{p}, q, sz);
      ResultsTake(bag - multiset{q}, p, sz);
      Swap(Result(p, sz), Result(q, sz), Results(bag - multiset{p} - multiset{q}, sz));
    }
  }

  lemma ResultsAdd(bag: multiset<Packet>, q: Packet, sz: nat)
    ensures Results(bag + multiset{q}, sz) == Results(bag, sz) + Result(q, sz)
  {
    hide Result;
    ResultsTake(bag + multiset{q}, q, sz);
    assert bag + multiset{q} - multiset{q} == bag;
  }

  lemma {:induction false} ResultsGrow(a: multiset<Packet>, b: multiset<Packet>, sz: nat)
    requires a <= b
    ensures Results(a, sz) <= Results(b, sz)
    decreases |b|
  {
    hide Result;
    if a != b {
      assert b == a + (b - a);
      assert b - a != multiset{};
      var q :| q in b - a;
      ResultsTake(b, q, sz);
      ResultsGrow(a, b - multiset{q}, sz);
    }
  }

  lemma {:induction false} CodecDrops(slots: seq<Slot>, sz: nat, src: Src)
    ensures var r := CodecRead(slots, sz, src);
            r.out != [] ==> FinishedCount(r.slots) < FinishedCount(slots)
    decreases FinishedCount(slots)
  {
    hide ReadFrom, ChecksumOk;
    var r := ReadFrom(slots, 0, sz, src);
    ReadDrops(slots, 0, sz, src);
    if |r.out| > 10 && !ChecksumOk(r.out) {
      CodecDrops(r.slots, sz, r.src);
    }
  }

  /** read_packet() called again and again until it returns nothing. */
  function DrainReads(slots: seq<Slot>, sz: nat, src: Src): seq<Reading>
    decreases FinishedCount(slots)
  {
    var r := CodecRead(slots, sz, src);
    CodecDrops(slots, sz, src);
    if r.out == [] then [] else [Reading(r.out, r.src)] + DrainReads(r.slots, sz, r.src)
  }

  /** One call takes packets out of the bag until one of them gives a result. */
  lemma {:induction false} ReadTakesResult(slots: seq<Slot>, sz: nat, src: Src)
    requires Consistent(slots) && 2 <= sz
    ensures var r := CodecRead(slots, sz, src);
            && Consistent(r.slots)
            && Results(DoneBag(slots), sz) ==
               if r.out == [] then multiset{}
               else multiset{Reading(r.out, r.src)} + Results(DoneBag(r.slots), sz)
    decreases FinishedCount(slots)
  {
    hide ReadFrom, ChecksumOk, DoneBag, Consistent, OpenMap, CopyChunks, Results;
    ReadRefines(slots, 0, sz, src);
    var r := ReadFrom(slots, 0, sz, src);
    ReadDrops(slots, 0, sz, src);
    NoResults(sz);
    if r.out != [] {
      var p :| DoneBag(slots) == DoneBag(r.slots) + multiset{p}
               && r.src == p.key.src && r.out == CopyChunks(Le16(p.key.pid), p.chunks, p.dlc, sz);
      ResultsAdd(DoneBag(r.slots), p, sz);
      if |r.out| > 10 && !ChecksumOk(r.out) {
        ReadTakesResult(r.slots, sz, r.src);
      }
    }
  }

  lemma NoResults(sz: nat)
    ensures Results(multiset{}, sz) == multiset{}
  {
  }

  /** Whatever else is finished, draining the codec hands out exactly the results of all finished
      packets, each as often as it is there. */
  lemma {:induction false} DrainedReads(slots: seq<Slot>, sz: nat, src: Src)
    requires Consistent(slots) && 2 <= sz
    ensures multiset(DrainReads(slots, sz, src)) == Results(DoneBag(slots), sz)
    decreases FinishedCount(slots)
  {
    hide CodecRead, DoneBag, Consistent, Results;
    ReadTakesResult(slots, sz, src);
    var r := CodecRead(slots, sz, src);
    CodecDrops(slots, sz, src);
    if r.out != [] {
      DrainedReads(r.slots, sz, r.src);
    }
  }

  lemma {:induction false} ResultsSource(bag: multiset<Packet>, sz: nat, r: Reading) returns (p: Packet)
    requires r in Results(bag, sz)
    ensures p in bag && r in Result(p, sz)
    decreases |bag|
  {
    hide Result, Results;
    if bag == multiset{} {
      NoResults(sz);
    }
    p := OneTaken(bag, sz);
    if r !in Result(p, sz) {
      p := ResultsSource(bag - multiset{p}, sz, r);
    }
  }

  /** Draining hands out a reading if and only if some finished packet gives it: so nothing that is tested
      comes out without its own checksum behind it, and nothing that has it is held back. */
  lemma HandedOutExact(slots: seq<Slot>, sz: nat, src: Src, r: Reading)
    requires Consistent(slots) && 2 <= sz
    ensures r in DrainReads(slots, sz, src) <==> exists p :: p in DoneBag(slots) && Yields(p, sz, r)
  {
    hide DoneBag, Consistent, DrainReads, Results, Result, Yields;
    DrainedReads(slots, sz, src);
    assert r in DrainReads(slots, sz, src) <==> r in multiset(DrainReads(slots, sz, src));
    if r in Results(DoneBag(slots), sz) {
      var p := ResultsSource(DoneBag(slots), sz, r);
      FinishedShape(slots, p);
      YieldsExact(p, sz, r);
    }
    forall p | p in DoneBag(slots) && Yields(p, sz, r) ensures r in Results(DoneBag(slots), sz) {
      FinishedShape(slots, p);
      YieldsExact(p, sz, r);
      ResultsTake(DoneBag(slots), p, sz);
    }
  }
}
