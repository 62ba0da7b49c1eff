/** Splitting a packet into CAN frames, and reading packets back with the checksum test. */
module CanCodec {
  import opened Bytes
  import opened CanFormat
  import opened CanPool
  import Crc32

  // ---------- what a transfer looks like on the bus ----------

  /** The bytes carried after the identifier: payload, then the CRC low byte first. */
  function Body(packet: seq<Byte>): seq<Byte>
    requires |packet| >= 2
  {
    packet[2..] + Le16(Crc32.PacketCrc(packet))
  }

  lemma BodyBytes(packet: seq<Byte>)
    requires |packet| >= 2
    ensures |Body(packet)| == |packet|
    ensures forall j :: 0 <= j < |packet| - 2 ==> Body(packet)[j] == packet[j + 2]
    ensures Body(packet)[|packet| - 2] == Crc32.PacketCrc(packet) % 256
    ensures Body(packet)[|packet| - 1] == Crc32.PacketCrc(packet) / 256
  {
  }

  function FrameCount(packet: seq<Byte>): nat
    requires |packet| >= 2
  {
    if |packet| <= 10 then 1 else (|packet| + 7) / 8
  }

  /** Frame i of k: start, then 0, 1, .. 4, 0, .., then end. */
  function FrmAt(i: nat, k: nat): Frm {
    if i + 1 == k then FRM_END else if i == 0 then FRM_START else (i - 1) % 5
  }

  ghost predicate IsSingle(net: Net, src: Src, packet: seq<Byte>, f: Frame)
    requires 2 <= |packet| <= 10
  {
    && f.id == ExtId(Key(net, src, FromLe16(packet[0], packet[1])), FRM_SINGLE)
    && f.dlc == |packet| - 2 && f.data[..f.dlc] == packet[2..]
  }

  /** Frame i of a multi-frame transfer carries bytes 8i.. of the body. */
  ghost predicate IsPart(net: Net, src: Src, packet: seq<Byte>, f: Frame, i: nat)
    requires |packet| > 10 && i < FrameCount(packet)
  {
    var body := Body(packet);
    var size := if |body| - 8 * i > 8 then 8 else |body| - 8 * i;
    && f.id == ExtId(Key(net, src, FromLe16(packet[0], packet[1])), FrmAt(i, FrameCount(packet)))
    && f.dlc == size && f.data[..size] == body[8 * i..8 * i + size]
  }

  lemma MakeSingle(net: Net, src: Src, packet: seq<Byte>, f: Frame)
    requires 2 <= |packet| <= 10
    requires f.id == ExtId(Key(net, src, FromLe16(packet[0], packet[1])), FRM_SINGLE)
    requires f.dlc == |packet| - 2 && f.data[..f.dlc] == packet[2..]
    ensures IsSingle(net, src, packet, f)
  {
  }

  lemma MakePart(net: Net, src: Src, packet: seq<Byte>, f: Frame, i: nat)
    requires |packet| > 10 && i < FrameCount(packet)
    requires f.id.key == Key(net, src, FromLe16(packet[0], packet[1]))
    requires f.id.frm == FrmAt(i, FrameCount(packet))
    requires f.dlc == if |packet| - 8 * i > 8 then 8 else |packet| - 8 * i
    requires |Body(packet)| == |packet| && f.data[..f.dlc] == Body(packet)[8 * i..8 * i + f.dlc]
    ensures IsPart(net, src, packet, f, i)
  {
  }

  ghost predicate IsTransfer(net: Net, src: Src, packet: seq<Byte>, frames: seq<Frame>)
    requires |packet| >= 2
  {
    && |frames| == FrameCount(packet)
    && if |packet| <= 10 then IsSingle(net, src, packet, frames[0])
       else forall i :: 0 <= i < |frames| ==> IsPart(net, src, packet, frames[i], i)
  }

  /** The first frames of a transfer. */
  ghost predicate IsBegun(net: Net, src: Src, packet: seq<Byte>, frames: seq<Frame>)
    requires |packet| >= 2
  {
    && |frames| <= FrameCount(packet)
    && if |packet| <= 10 then frames != [] ==> IsSingle(net, src, packet, frames[0])
       else forall i :: 0 <= i < |frames| ==> IsPart(net, src, packet, frames[i], i)
  }

  lemma WholeTransfer(net: Net, src: Src, packet: seq<Byte>, frames: seq<Frame>)
    requires |packet| >= 2
    ensures IsTransfer(net, src, packet, frames) <==>
              IsBegun(net, src, packet, frames) && |frames| == FrameCount(packet)
  {
  }

  /** How many of k messages a driver takes that has taken `before` and takes no more than `capacity`. */
  function Taken(k: nat, before: nat, capacity: nat): nat {
    if capacity <= before then 0 else if capacity - before < k then capacity - before else k
  }

  // ---------- reading with the checksum test ----------

  ghost function FinishedCount(slots: seq<Slot>): nat {
    if slots == [] then 0 else (if slots[0].Finished() then 1 else 0) + FinishedCount(slots[1..])
  }

  lemma {:induction false} FinishedDrops(slots: seq<Slot>, k: nat)
    requires k < |slots| && slots[k].Finished()
    ensures FinishedCount(slots[k := Empty]) + 1 == FinishedCount(slots)
  {
    if k == 0 {
      assert slots[0 := Empty][1..] == slots[1..];
    } else {
      assert slots[k := Empty][1..] == slots[1..][k - 1 := Empty];
      FinishedDrops(slots[1..], k - 1);
    }
  }

  lemma {:induction false} ReadDrops(slots: seq<Slot>, k: nat, sz: nat, src: Src)
    ensures var r := ReadFrom(slots, k, sz, src);
            && FinishedCount(r.slots) <= FinishedCount(slots)
            && (r.out != [] ==> FinishedCount(r.slots) < FinishedCount(slots))
    decreases |slots| - k
  {
    if k < |slots| {
      if !slots[k].Finished() {
        ReadDrops(slots, k + 1, sz, src);
      } else {
        FinishedDrops(slots, k);
        ReadDrops(slots[k := Empty], k + 1, sz, slots[k].id.key.src);
      }
    }
  }

  /** The last two bytes are the low half of the CRC-32 of the bytes before them. */
  predicate ChecksumOk(out: seq<Byte>)
    requires |out| >= 2
  {
    FromLe16(out[|out| - 2], out[|out| - 1]) == Crc32.PacketCrc(out[..|out| - 2])
  }

  /** A packet as check_crc() wants it. */
  function WithCrc(packet: seq<Byte>): seq<Byte> {
    packet + Le16(Crc32.PacketCrc(packet))
  }

  /** The test accepts a packet followed by its own checksum and nothing else. */
  lemma ChecksumExact(out: seq<Byte>, packet: seq<Byte>)
    requires |out| >= 2
    ensures out[..|out| - 2] == packet && ChecksumOk(out) <==> out == WithCrc(packet)
  {
    hide Crc32.PacketCrc;
    var n := |out| - 2;
    assert out == out[..n] + [out[n], out[n + 1]];
    LowFirst(Crc32.PacketCrc(packet));
    if out == WithCrc(packet) {
      assert out[..n] == packet;
    }
  }

  /** Up to ten copied bytes pass as they are, whatever packet they come from; more only with a good
      checksum, which is cut off. */
  function CodecRead(slots: seq<Slot>, sz: nat, src: Src): ReadResult
    decreases FinishedCount(slots)
  {
    var r := ReadFrom(slots, 0, sz, src);
    ReadDrops(slots, 0, sz, src);
    if |r.out| <= 10 then r
    else if ChecksumOk(r.out) then r.(out := r.out[..|r.out| - 2])
    else CodecRead(r.slots, sz, r.src)
  }

  class Codec {
    const pool: Pool
    const txData: array<Byte>
    const net: Net
    const src: Src
    /** What send_message() was given. */
    var sent: seq<Frame>

    constructor (pool: Pool, net: Net, src: Src)
      ensures this.pool == pool && this.net == net && this.src == src && sent == []
      ensures txData.Length == 8 && fresh(txData)
    {
      this.pool := pool;
      this.net, this.src := net, src;
      txData := new Byte[8];
      sent := [];
    }

    method ReadPacket(sz: nat, src0: Src) returns (out: seq<Byte>, srcId: Src)
      requires pool.Valid()
      modifies pool, pool.trees, pool.items
      ensures pool.Valid()
      ensures ReadResult(pool.slots, out, srcId) == CodecRead(old(pool.slots), sz, src0)
    {
      srcId := src0;
      while true
        invariant pool.Valid()
        invariant CodecRead(pool.slots, sz, srcId) == CodecRead(old(pool.slots), sz, src0)
        decreases FinishedCount(pool.slots)
      {
        ReadDrops(pool.slots, 0, sz, srcId);
        out, srcId := pool.ReadPacket(sz, srcId);
        if |out| <= 10 {
          return;
        }
        var cnt := CheckCrc(out);
        if cnt > 0 {
          out := out[..cnt];
          return;
        }
      }
    }

    method CheckCrc(dest: seq<Byte>) returns (cnt: nat)
      requires |dest| > 10
      ensures cnt == if ChecksumOk(dest) then |dest| - 2 else 0
      ensures cnt > 0 <==> dest == WithCrc(dest[..|dest| - 2])
    {
      var sz := |dest| - 2;
      var packetCrc := FromLe16(dest[sz], dest[sz + 1]);
      ChecksumExact(dest, dest[..sz]);
      var crc := Crc32.PacketCrc16(dest[..sz]);
      if packetCrc != crc {
        return 0;
      }
      return sz;
    }

    method Memcpy(data: seq<Byte>, from: nat, n: nat)
      requires txData.Length == 8 && n <= 8 && from + n <= |data|
      modifies txData
      ensures txData[..] == data[from..from + n] + old(txData[n..])
    {
      for i := 0 to n
        invariant forall j :: 0 <= j < 8 ==> txData[j] == if j < i then data[from + j] else old(txData[j])
      {
        txData[i] := data[from + i];
      }
    }

    /** The driver takes messages while fewer than `capacity` were sent, then refuses. */
    method SendMessage(id: ExtId, dlc: Dlc, capacity: nat) returns (ok: bool)
      requires txData.Length == 8
      modifies this`sent
      ensures ok <==> |old(sent)| < capacity
      ensures sent == if ok then old(sent) + [Frame(id, dlc, txData[..])] else old(sent)
    {
      ok := |sent| < capacity;
      if ok {
        sent := sent + [Frame(id, dlc, txData[..])];
      }
    }

    /** Fills txData with the next bytes of the body, of which cnt are left, two of them the CRC. */
    method FillPart(packet: seq<Byte>, crc: int, from: nat, cnt: nat) returns (dlc: Dlc)
      requires txData.Length == 8
      requires |packet| >= 2 && crc == Crc32.PacketCrc(packet)
      requires 0 < cnt && 2 <= from && from + cnt == |packet| + 2
      modifies txData
      ensures dlc == if cnt > 8 then 8 else cnt
      ensures txData[..dlc] == Body(packet)[from - 2..from - 2 + dlc]
    {
      hide Body, Crc32.PacketCrc;
      BodyBytes(packet);
      if cnt > 8 {
        dlc := 8;
        if cnt == 9 {
          Memcpy(packet, from, 7);
          txData[7] := crc % 256;
        } else {
          Memcpy(packet, from, 8);
        }
      } else {
        dlc := cnt;
        if cnt > 2 {
          var sz := cnt - 2;
          Memcpy(packet, from, sz);
          txData[sz] := crc % 256;
          txData[sz + 1] := crc / 256;
        } else if cnt == 2 {
          txData[0] := crc % 256;
          txData[1] := crc / 256;
        } else {
          txData[0] := crc / 256;
        }
      }
      assert forall j :: 0 <= j < dlc ==> txData[j] == Body(packet)[from - 2 + j];
    }

    /** One round of the multi-frame loop: the frame that carries the next bytes of the body. */
    method SendPart(packet: seq<Byte>, crc: int, id: ExtId, from: nat, cnt: nat, ghost i: nat, capacity: nat)
      returns (dlc: Dlc, ok: bool, ghost f: Frame)
      requires txData.Length == 8
      requires |packet| > 10 && crc == Crc32.PacketCrc(packet)
      requires i < FrameCount(packet) && from == 2 + 8 * i && cnt == |packet| - 8 * i
      requires id.key == Key(net, src, FromLe16(packet[0], packet[1])) && id.frm == FrmAt(i, FrameCount(packet))
      modifies this`sent, txData
      ensures dlc == if cnt > 8 then 8 else cnt
      ensures IsPart(net, src, packet, f, i)
      ensures ok <==> |old(sent)| < capacity
      ensures sent == if ok then old(sent) + [f] else old(sent)
    {
      hide Body, IsPart, Crc32.PacketCrc;
      BodyBytes(packet);
      dlc := FillPart(packet, crc, from, cnt);
      f := Frame(id, dlc, txData[..]);
      MakePart(net, src, packet, f, i);
      ok := SendMessage(id, dlc, capacity);
    }

    /** The multi-frame loop of send_packet(). */
    method SendParts(packet: seq<Byte>, key: Key, capacity: nat) returns (ok: bool, ghost parts: seq<Frame>)
      requires txData.Length == 8 && |packet| > 10
      requires key == Key(net, src, FromLe16(packet[0], packet[1]))
      modifies this`sent, txData
      ensures sent == old(sent) + parts
      ensures IsBegun(net, src, packet, parts)
      ensures |parts| == Taken(FrameCount(packet), |old(sent)|, capacity)
      ensures ok <==> |parts| == FrameCount(packet)
    {
      hide Body, IsPart, Crc32.PacketCrc;
      var crc := Crc32.PacketCrc16(packet);
      var cnt: nat := |packet|;
      var from: nat := 2;
      var frm := FRM_START;
      ghost var k := FrameCount(packet);
      parts := [];
      while cnt > 0
        invariant |parts| <= k && cnt == if |parts| < k then |packet| - 8 * |parts| else 0
        invariant |parts| < k ==> from == 2 + 8 * |parts|
        invariant |parts| < k ==> frm == if |parts| == 0 then FRM_START else (|parts| - 1) % 5
        invariant sent == old(sent) + parts
        invariant forall j :: 0 <= j < |parts| ==> IsPart(net, src, packet, parts[j], j)
        invariant parts != [] ==> |sent| <= capacity
      {
        var id := ExtId(key, FRM_END);
        if cnt > 8 {
          id := ExtId(key, frm);
          frm := if frm == FRM_START || frm >= FRM_SEQ_MAX then 0 else frm + 1;
        }
        var dlc;
        ghost var f;
        dlc, ok, f := SendPart(packet, crc, id, from, cnt, |parts|, capacity);
        if !ok {
          return;
        }
        parts := parts + [f];
        cnt := cnt - dlc;
        from := from + dlc;
      }
      ok := true;
    }

    /** What is sent is the transfer of the packet, up to the message that the driver refuses. Bytes of
        txData beyond dlc are left over from earlier messages. */
    method SendPacket(packet: seq<Byte>, capacity: nat) returns (ok: bool, ghost parts: seq<Frame>)
      requires txData.Length == 8
      modifies this`sent, txData
      ensures sent == old(sent) + parts
      ensures |packet| < 2 ==> ok && parts == []
      ensures |packet| >= 2 ==>
                && IsBegun(net, src, packet, parts)
                && |parts| == Taken(FrameCount(packet), |old(sent)|, capacity)
                && (ok <==> IsTransfer(net, src, packet, parts))
    {
      hide Body, IsPart, IsSingle, IsTransfer, Crc32.PacketCrc;
      if |packet| < 2 {
        return true, [];
      }
      var key := Key(net, src, FromLe16(packet[0], packet[1]));
      var cnt := |packet| - 2;
      if cnt <= 8 {
        Memcpy(packet, 2, cnt);
        ghost var f := Frame(ExtId(key, FRM_SINGLE), cnt, txData[..]);
        MakeSingle(net, src, packet, f);
        ok := SendMessage(ExtId(key, FRM_SINGLE), cnt, capacity);
        parts := if ok then [f] else [];
      } else {
        ok, parts := SendParts(packet, key, capacity);
      }
      WholeTransfer(net, src, packet, parts);
    }
  }
}
