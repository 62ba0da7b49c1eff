/** End to end: the frames of one packet, pushed among arbitrary traffic of other keys, timer rounds
    and reads, each but the last repeated at will while an item is free, give back the identical packet,
    whatever else is finished at the same time. */
module CanDelivery {
  import opened Bytes
  import opened CanFormat
  import opened CanMap
  import opened CanRuns
  import opened CanCodec
  import opened CanReads
  import Crc32

  // ---------- what may happen between two frames ----------

  ghost predicate Foreign(ev: Event, key: Key) {
    ev.Received? ==> ev.f.id.key != key
  }

  /** Whether an event makes every unfinished packet one round older. */
  function AgesBy(slots: seq<Slot>, n: nat, ev: Event): nat {
    match ev
    case Timer => 1
    case Read(_, _) => 0
    case Received(f) =>
      if Push(slots, n, f).1 in {ErrorOrphan, ErrorSlotsOverflow, ErrorTreeOverflow} then 1 else 0
  }

  function AgesIn(slots: seq<Slot>, n: nat, gap: seq<Event>): nat
    decreases |gap|
  {
    if gap == [] then 0 else AgesBy(slots, n, gap[0]) + AgesIn(Step(slots, n, gap[0]), n, gap[1..])
  }

  lemma GapStep(slots: seq<Slot>, n: nat, ev: Event, key: Key)
    requires Consistent(slots) && Foreign(ev, key)
    ensures var r, age := Step(slots, n, ev), AgesBy(slots, n, ev);
            && Consistent(r)
            && (key in OpenMap(r) <==> key in OpenMap(slots) && age <= OpenMap(slots)[key].to)
            && (key in OpenMap(r) ==> OpenMap(r)[key] == OpenMap(slots)[key].(to := OpenMap(slots)[key].to - age))
  {
    hide OpenMap, DoneBag, Push, Consistent;
    match ev {
      case Received(f) =>
        PushRefines(slots, n, f);
        OtherKeysUntouched(Abstract(slots), f, Used(slots) == n, SlotsExhausted(slots, f.id.key), key);
      case Timer => AgeRefines(slots);
      case Read(sz, src) => ReadTakes(slots, 0, sz, src);
    }
  }

  lemma {:induction false} GoneStays(slots: seq<Slot>, n: nat, gap: seq<Event>, key: Key)
    requires Consistent(slots) && key !in OpenMap(slots)
    requires forall i :: 0 <= i < |gap| ==> Foreign(gap[i], key)
    ensures var r := RunFrom(slots, n, gap); Consistent(r) && key !in OpenMap(r)
    decreases |gap|
  {
    hide OpenMap, Consistent, Step;
    if gap != [] {
      assert Foreign(gap[0], key);
      GapStep(slots, n, gap[0], key);
      GoneStays(Step(slots, n, gap[0]), n, gap[1..], key);
    }
  }

  /** While others use the pool an unfinished packet survives if and only if no more ageing rounds pass
      than it has left; if it does, only its age changes. */
  lemma {:induction false} GapKeeps(slots: seq<Slot>, n: nat, gap: seq<Event>, key: Key)
    requires Consistent(slots) && key in OpenMap(slots)
    requires forall i :: 0 <= i < |gap| ==> Foreign(gap[i], key)
    ensures var r, age := RunFrom(slots, n, gap), AgesIn(slots, n, gap);
            && Consistent(r)
            && (key in OpenMap(r) <==> age <= OpenMap(slots)[key].to)
            && (key in OpenMap(r) ==> OpenMap(r)[key] == OpenMap(slots)[key].(to := OpenMap(slots)[key].to - age))
    decreases |gap|
  {
    hide OpenMap, Consistent, Step, AgesBy;
    if gap != [] {
      assert Foreign(gap[0], key);
      GapStep(slots, n, gap[0], key);
      var r := Step(slots, n, gap[0]);
      if key in OpenMap(r) {
        GapKeeps(r, n, gap[1..], key);
      } else {
        GoneStays(r, n, gap[1..], key);
      }
    }
  }

  lemma {:induction false} GapConsistent(slots: seq<Slot>, n: nat, gap: seq<Event>)
    requires Consistent(slots)
    ensures Consistent(RunFrom(slots, n, gap))
    decreases |gap|
  {
    if gap != [] {
      StepConsistent(slots, n, gap[0]);
      GapConsistent(Step(slots, n, gap[0]), n, gap[1..]);
    }
  }

  // ---------- a transfer among other traffic ----------

  /** Other events, then the transfer's next frame. */
  datatype Turn = Turn(gap: seq<Event>, f: Frame)

  function Play(slots: seq<Slot>, n: nat, turns: seq<Turn>): seq<Slot>
    decreases |turns|, 0
  {
    if turns == [] then slots
    else Push(Arrival(slots, n, turns, |turns| - 1), n, turns[|turns| - 1].f).0
  }

  /** The row of slots that frame i of the transfer finds. */
  function Arrival(slots: seq<Slot>, n: nat, turns: seq<Turn>, i: nat): seq<Slot>
    requires i < |turns|
    decreases i, 1
  {
    RunFrom(Play(slots, n, turns[..i]), n, turns[i].gap)
  }

  /** How many ageing rounds the unfinished packet has behind it after an event: a repeated start frame
      makes it new again. */
  function NextAge(slots: seq<Slot>, n: nat, ev: Event, f: Frame, age: nat): nat {
    if ev == Received(f) then if f.id.frm == FRM_START then 0 else age
    else age + AgesBy(slots, n, ev)
  }

  /** Behind frame f the key is used by nobody but repetitions of f, each of which finds a free item,
      and the packet never has more than seven ageing rounds behind it. */
  ghost predicate Calm(slots: seq<Slot>, n: nat, gap: seq<Event>, f: Frame, age: nat)
    decreases |gap|
  {
    gap == []
    || (var next := NextAge(slots, n, gap[0], f, age);
        && (if gap[0] == Received(f) then Used(slots) < n else Foreign(gap[0], f.id.key))
        && next <= TIMEOUT && Calm(Step(slots, n, gap[0]), n, gap[1..], f, next))
  }

  /** Without repetitions that is a bound on the ageing rounds. */
  lemma {:induction false} ForeignCalm(slots: seq<Slot>, n: nat, gap: seq<Event>, f: Frame, age: nat)
    requires age <= TIMEOUT && forall i :: 0 <= i < |gap| ==> Foreign(gap[i], f.id.key)
    ensures Calm(slots, n, gap, f, age) <==> age + AgesIn(slots, n, gap) <= TIMEOUT
    decreases |gap|
  {
    hide Step, AgesBy;
    if gap != [] {
      assert Foreign(gap[0], f.id.key);
      var next := NextAge(slots, n, gap[0], f, age);
      if next <= TIMEOUT {
        ForeignCalm(Step(slots, n, gap[0]), n, gap[1..], f, next);
      }
    }
  }

  /** Frame i finds a free item, the first one also a free slot, and the gap before it is calm. Before the
      first frame anything may happen. */
  ghost predicate Arrives(slots: seq<Slot>, n: nat, turns: seq<Turn>, key: Key, i: nat)
    requires i < |turns|
  {
    && Used(Arrival(slots, n, turns, i)) < n
    && if i == 0 then !SlotsExhausted(Arrival(slots, n, turns, 0), key)
       else Calm(Play(slots, n, turns[..i]), n, turns[i].gap, turns[i - 1].f, 0)
  }

  ghost predicate Undisturbed(slots: seq<Slot>, n: nat, turns: seq<Turn>, key: Key) {
    forall i :: 0 <= i < |turns| ==> Arrives(slots, n, turns, key, i)
  }

  function FramesOf(turns: seq<Turn>): (frames: seq<Frame>)
    ensures |frames| == |turns| && forall i :: 0 <= i < |turns| ==> frames[i] == turns[i].f
  {
    seq(|turns|, i requires 0 <= i < |turns| => turns[i].f)
  }

  function Chunks(turns: seq<Turn>): (chunks: seq<Chunk>)
    ensures |chunks| == |turns| && forall i :: 0 <= i < |turns| ==> chunks[i] == turns[i].f.data
  {
    seq(|turns|, i requires 0 <= i < |turns| => turns[i].f.data)
  }

  lemma PlayStep(slots: seq<Slot>, n: nat, turns: seq<Turn>, i: nat)
    requires 0 < i <= |turns|
    ensures Play(slots, n, turns[..i]) == Push(Arrival(slots, n, turns, i - 1), n, turns[i - 1].f).0
  {
    assert turns[..i][..i - 1] == turns[..i - 1];
  }

  lemma FrameFacts(turns: seq<Turn>, net: Net, src: Src, packet: seq<Byte>, i: nat)
    requires |packet| > 10 && IsTransfer(net, src, packet, FramesOf(turns)) && i < |turns|
    ensures |turns| == FrameCount(packet) > 1
    ensures turns[i].f.id == ExtId(Key(net, src, FromLe16(packet[0], packet[1])), FrmAt(i, |turns|))
    ensures turns[i].f.dlc == if i + 1 < |turns| then 8 else |packet| - 8 * i
    ensures i + 1 == |turns| ==> 0 < |packet| - 8 * i <= 8
  {
    BodyBytes(packet);
    assert FramesOf(turns)[i] == turns[i].f;
    assert IsPart(net, src, packet, FramesOf(turns)[i], i);
  }

  /** After i frames of a multi-frame transfer the map holds exactly their chunks. */
  ghost predicate Holding(slots: seq<Slot>, turns: seq<Turn>, key: Key) {
    && turns != [] && Consistent(slots) && key in OpenMap(slots)
    && OpenMap(slots)[key].chunks == Chunks(turns)
    && OpenMap(slots)[key].frm == (|turns| - 1) % 5
  }

  lemma FirstFrame(slots: seq<Slot>, n: nat, turns: seq<Turn>)
    requires Consistent(slots) && turns != [] && turns[0].f.id.frm == FRM_START && turns[0].f.dlc == 8
    requires Used(slots) < n && !SlotsExhausted(slots, turns[0].f.id.key)
    ensures var r := Push(slots, n, turns[0].f).0;
            && Holding(r, turns[..1], turns[0].f.id.key)
            && OpenMap(r)[turns[0].f.id.key].to == TIMEOUT
  {
    hide OpenMap, DoneBag, Push, Consistent, SlotsExhausted;
    PushRefines(slots, n, turns[0].f);
  }

  /** A sequence frame that finds its predecessors in the map joins them. */
  lemma NextFrame(slots: seq<Slot>, n: nat, turns: seq<Turn>, i: nat)
    requires 0 < i < |turns| - 1
    requires Holding(slots, turns[..i], turns[i].f.id.key) && Used(slots) < n
    requires turns[i].f.id.frm == (i - 1) % 5 && turns[i].f.dlc == 8
    ensures var r := Push(slots, n, turns[i].f).0;
            && Holding(r, turns[..i + 1], turns[i].f.id.key)
            && OpenMap(r)[turns[i].f.id.key].to == TIMEOUT
  {
    hide OpenMap, DoneBag, Push, Consistent, SlotsExhausted;
    PushRefines(slots, n, turns[i].f);
    assert Chunks(turns[..i + 1]) == Chunks(turns[..i]) + [turns[i].f.data];
  }

  /** An unfinished packet of its own always leaves a slot to a repeated start frame. */
  lemma OwnSlot(slots: seq<Slot>, key: Key)
    requires Consistent(slots) && key in OpenMap(slots)
    ensures !SlotsExhausted(slots, key)
  {
    hide OpenMap, DoneBag, Consistent, SlotsExhausted;
    SlotsAccounted(slots);
    FullRow(slots);
    ExhaustedMeaning(slots, key);
    assert OpenMap(slots).Keys == (OpenMap(slots) - {key}).Keys + {key};
  }

  /** f is the start frame or the sequence frame that came last. */
  ghost predicate LastFrame(turns: seq<Turn>, f: Frame) {
    && turns != [] && f == turns[|turns| - 1].f && f.dlc == 8
    && f.id.frm == FrmAt(|turns| - 1, |turns| + 1)
  }

  /** The frame that came last, once more. */
  lemma RepeatHolding(slots: seq<Slot>, n: nat, turns: seq<Turn>, f: Frame)
    requires Holding(slots, turns, f.id.key) && Used(slots) < n && LastFrame(turns, f)
    ensures var r := Push(slots, n, f).0;
            && Holding(r, turns, f.id.key)
            && OpenMap(r)[f.id.key].to == if |turns| == 1 then TIMEOUT else OpenMap(slots)[f.id.key].to
  {
    hide OpenMap, DoneBag, Push, Consistent, SlotsExhausted;
    OwnSlot(slots, f.id.key);
    PushRefines(slots, n, f);
    assert |turns| == 1 ==> Chunks(turns) == [f.data];
  }

  lemma {:induction false} GapHolding(slots: seq<Slot>, n: nat, turns: seq<Turn>, gap: seq<Event>, f: Frame, age: nat)
    requires Holding(slots, turns, f.id.key) && LastFrame(turns, f)
    requires OpenMap(slots)[f.id.key].to as int + age == TIMEOUT && Calm(slots, n, gap, f, age)
    ensures Holding(RunFrom(slots, n, gap), turns, f.id.key)
    decreases |gap|
  {
    hide OpenMap, Consistent, Push, AgesBy, Used;
    if gap != [] {
      if gap[0] == Received(f) {
        RepeatHolding(slots, n, turns, f);
      } else {
        GapStep(slots, n, gap[0], f.id.key);
      }
      GapHolding(Step(slots, n, gap[0]), n, turns, gap[1..], f, NextAge(slots, n, gap[0], f, age));
    }
  }

  lemma {:induction false} Progress(slots: seq<Slot>, n: nat, turns: seq<Turn>, net: Net, src: Src,
                                    packet: seq<Byte>, i: nat)
    requires Consistent(slots) && |packet| > 10 && IsTransfer(net, src, packet, FramesOf(turns))
    requires 0 < i < |turns| && Undisturbed(slots, n, turns, turns[0].f.id.key)
    ensures Holding(Play(slots, n, turns[..i]), turns[..i], turns[0].f.id.key)
    ensures OpenMap(Play(slots, n, turns[..i]))[turns[0].f.id.key].to == TIMEOUT
    decreases i
  {
    hide OpenMap, Push, Consistent, SlotsExhausted, IsTransfer, Holding, Play;
    if i == 1 {
      FrameFacts(turns, net, src, packet, 0);
      assert Arrives(slots, n, turns, turns[0].f.id.key, 0);
      assert turns[..0] == [];
      NothingPlayed(slots, n);
      GapConsistent(slots, n, turns[0].gap);
      FirstFrame(Arrival(slots, n, turns, 0), n, turns);
      PlayStep(slots, n, turns, 1);
    } else {
      Progress(slots, n, turns, net, src, packet, i - 1);
      FrameFacts(turns, net, src, packet, 0);
      FrameFacts(turns, net, src, packet, i - 1);
      FrameFacts(turns, net, src, packet, i - 2);
      assert Arrives(slots, n, turns, turns[0].f.id.key, i - 1);
      GapHolding(Play(slots, n, turns[..i - 1]), n, turns[..i - 1], turns[i - 1].gap, turns[i - 2].f, 0);
      NextFrame(Arrival(slots, n, turns, i - 1), n, turns, i - 1);
      PlayStep(slots, n, turns, i);
    }
  }

  /** The end frame completes the packet: exactly one packet, made of exactly the transfer's chunks,
      joins those already finished. */
  lemma Completed(slots: seq<Slot>, n: nat, turns: seq<Turn>, net: Net, src: Src, packet: seq<Byte>)
    requires Consistent(slots) && |packet| > 10 && IsTransfer(net, src, packet, FramesOf(turns)) && turns != []
    requires Undisturbed(slots, n, turns, turns[0].f.id.key)
    ensures var k := |turns| - 1;
            var before := Arrival(slots, n, turns, k);
            var after := Play(slots, n, turns);
            var key := Key(net, src, FromLe16(packet[0], packet[1]));
            && Push(before, n, turns[k].f).1 == PacketAvailable
            && Consistent(before) && Consistent(after) && key !in OpenMap(after)
            && DoneBag(after) == DoneBag(before) + multiset{Packet(key, turns[k].f.dlc, Chunks(turns))}
  {
    hide OpenMap, DoneBag, Push, Consistent, SlotsExhausted, IsTransfer, Play;
    var k := |turns| - 1;
    FrameFacts(turns, net, src, packet, 0);
    FrameFacts(turns, net, src, packet, k);
    Progress(slots, n, turns, net, src, packet, k);
    FrameFacts(turns, net, src, packet, k - 1);
    assert Arrives(slots, n, turns, turns[0].f.id.key, k);
    GapHolding(Play(slots, n, turns[..k]), n, turns[..k], turns[k].gap, turns[k - 1].f, 0);
    PlayStep(slots, n, turns, |turns|);
    assert turns[..|turns|] == turns;
    PushRefines(Arrival(slots, n, turns, k), n, turns[k].f);
    assert Chunks(turns) == Chunks(turns[..k]) + [turns[k].f.data];
  }

  // ---------- the bytes of the packet ----------

  lemma PartData(turns: seq<Turn>, net: Net, src: Src, packet: seq<Byte>, i: nat)
    requires |packet| > 10 && IsTransfer(net, src, packet, FramesOf(turns)) && i < |turns|
    ensures var size := if i + 1 < |turns| then 8 else |packet| - 8 * i;
            && 0 < size <= 8 && 8 * i + size <= |Body(packet)|
            && turns[i].f.data[..size] == Body(packet)[8 * i..8 * i + size]
  {
    FrameFacts(turns, net, src, packet, i);
    BodyBytes(packet);
    assert IsPart(net, src, packet, FramesOf(turns)[i], i);
  }

  lemma CopyStep(out: seq<Byte>, chunks: seq<Chunk>, dlc: Byte, sz: nat)
    requires chunks != []
    ensures |chunks| > 1 && |out| + 8 <= sz ==>
              CopyChunks(out, chunks, dlc, sz) == CopyChunks(out + chunks[0], chunks[1..], dlc, sz)
    ensures |chunks| == 1 && dlc <= 8 && |out| + dlc <= sz ==>
              CopyChunks(out, chunks, dlc, sz) == out + chunks[0][..dlc]
  {
  }

  /** Reading a transfer's chunks puts identifier, payload and checksum together again. */
  lemma {:induction false} CopyRest(turns: seq<Turn>, net: Net, src: Src, packet: seq<Byte>,
                                    out: seq<Byte>, i: nat, sz: nat)
    requires |packet| > 10 && IsTransfer(net, src, packet, FramesOf(turns)) && i < |turns|
    requires sz >= |packet| + 2 && |out| == 2 + 8 * i
    ensures |Body(packet)| == |packet| && 8 * i <= |packet|
    ensures CopyChunks(out, Chunks(turns)[i..], turns[|turns| - 1].f.dlc, sz) == out + Body(packet)[8 * i..]
    decreases |turns| - i
  {
    hide Body, IsTransfer, CopyChunks, FrmAt, FrameCount, FromLe16;
    BodyBytes(packet);
    FrameFacts(turns, net, src, packet, i);
    FrameFacts(turns, net, src, packet, |turns| - 1);
    CopyStep(out, Chunks(turns)[i..], turns[|turns| - 1].f.dlc, sz);
    PartData(turns, net, src, packet, i);
    var data := turns[i].f.data;
    var chunks := Chunks(turns)[i..];
    assert chunks[0] == data;
    if i + 1 < |turns| {
      assert chunks[1..] == Chunks(turns)[i + 1..];
      CopyRest(turns, net, src, packet, out + data, i + 1, sz);
      assert Body(packet)[8 * i..] == data + Body(packet)[8 * (i + 1)..];
    } else {
      assert Body(packet)[8 * i..] == data[..turns[i].f.dlc];
    }
  }

  /** The packet that a completed transfer becomes. */
  function Transfer(turns: seq<Turn>, net: Net, src: Src, packet: seq<Byte>): Packet
    requires |packet| >= 2 && turns != []
  {
    var dlc := turns[|turns| - 1].f.dlc;
    Packet(Key(net, src, FromLe16(packet[0], packet[1])), if dlc == 0 then ZERO_LENGTH else dlc, Chunks(turns))
  }

  lemma ReadSingle(turns: seq<Turn>, net: Net, src: Src, packet: seq<Byte>, sz: nat)
    requires 2 <= |packet| <= 10 && IsTransfer(net, src, packet, FramesOf(turns)) && turns != []
    requires sz >= |packet|
    ensures PacketBytes(Transfer(turns, net, src, packet), sz) == packet
  {
    hide Crc32.PacketCrc;
    var p := Transfer(turns, net, src, packet);
    var f := turns[0].f;
    assert FramesOf(turns)[0] == f && p.chunks == [f.data];
    CopyStep(Le16(p.key.pid), p.chunks, p.dlc, sz);
    if f.dlc == 0 {
      NothingCopied(Le16(p.key.pid), p.chunks, p.dlc, sz);
    }
    assert PacketBytes(p, sz) == Le16(p.key.pid) + f.data[..f.dlc];
    assert packet == packet[..2] + packet[2..];
  }

  lemma NothingCopied(out: seq<Byte>, chunks: seq<Chunk>, dlc: Byte, sz: nat)
    requires |chunks| == 1 && dlc > 8
    ensures CopyChunks(out, chunks, dlc, sz) == out
  {
  }

  lemma ReadLong(turns: seq<Turn>, net: Net, src: Src, packet: seq<Byte>, sz: nat)
    requires |packet| > 10 && IsTransfer(net, src, packet, FramesOf(turns)) && turns != []
    requires sz >= |packet| + 2
    ensures PacketBytes(Transfer(turns, net, src, packet), sz) == Le16(FromLe16(packet[0], packet[1])) + Body(packet)
  {
    hide Body, IsTransfer, CopyChunks, FrmAt, FrameCount;
    FrameFacts(turns, net, src, packet, |turns| - 1);
    CopyRest(turns, net, src, packet, Le16(FromLe16(packet[0], packet[1])), 0, sz);
    assert Chunks(turns)[0..] == Chunks(turns) && Body(packet)[0..] == Body(packet);
  }

  /** Reading it gives the original bytes and the sender. */
  lemma ReadBack(turns: seq<Turn>, net: Net, src: Src, packet: seq<Byte>, sz: nat)
    requires |packet| >= 2 && IsTransfer(net, src, packet, FramesOf(turns)) && turns != []
    requires sz >= |packet| + 2
    ensures Result(Transfer(turns, net, src, packet), sz) == multiset{Reading(packet, src)}
  {
    hide PacketBytes, IsTransfer, Crc32.PacketCrc;
    if |packet| <= 10 {
      ReadSingle(turns, net, src, packet, sz);
    } else {
      ReadLong(turns, net, src, packet, sz);
      Rejoined(packet, Crc32.PacketCrc(packet));
    }
  }

  lemma Rejoined(packet: seq<Byte>, crc: int)
    requires |packet| >= 2 && 0 <= crc < 0x1_0000
    ensures var out := Le16(FromLe16(packet[0], packet[1])) + (packet[2..] + Le16(crc));
            && |out| == |packet| + 2 && out[..|packet|] == packet
            && FromLe16(out[|packet|], out[|packet| + 1]) == crc
  {
    var out := Le16(FromLe16(packet[0], packet[1])) + (packet[2..] + Le16(crc));
    assert out[..|packet|] == packet;
  }

  // ---------- end to end ----------

  function BackToBack(frames: seq<Frame>): (turns: seq<Turn>)
    ensures |turns| == |frames| && forall i :: 0 <= i < |frames| ==> turns[i] == Turn([], frames[i])
  {
    seq(|frames|, i requires 0 <= i < |frames| => Turn([], frames[i]))
  }

  lemma {:induction false} RoomRemains(slots: seq<Slot>, n: nat, frames: seq<Frame>, i: nat)
    requires Used(slots) + |frames| <= n && i <= |frames|
    ensures Used(Play(slots, n, BackToBack(frames)[..i])) <= Used(slots) + i
    decreases i
  {
    var turns := BackToBack(frames);
    if i > 0 {
      RoomRemains(slots, n, frames, i - 1);
      PlayStep(slots, n, turns, i);
      PushUsed(Play(slots, n, turns[..i - 1]), n, frames[i - 1]);
    }
  }

  /** Enough free items and one free slot are all that back-to-back frames need. */
  lemma UndisturbedBackToBack(slots: seq<Slot>, n: nat, frames: seq<Frame>, key: Key)
    requires Used(slots) + |frames| <= n && !SlotsExhausted(slots, key)
    ensures Undisturbed(slots, n, BackToBack(frames), key)
  {
    var turns := BackToBack(frames);
    forall i | 0 <= i < |turns| ensures Used(Arrival(slots, n, turns, i)) < n {
      RoomRemains(slots, n, frames, i);
    }
    assert turns[..0] == [];
  }

  lemma SingleDelivered(slots: seq<Slot>, n: nat, net: Net, src: Src, packet: seq<Byte>, f: Frame)
    requires Consistent(slots) && 2 <= |packet| <= 10 && IsSingle(net, src, packet, f)
    requires Used(slots) < n && !SlotsExhausted(slots, f.id.key)
    ensures var r := Push(slots, n, f).0;
            && Consistent(r)
            && DoneBag(r) == DoneBag(slots)
                             + multiset{Packet(f.id.key, if f.dlc == 0 then ZERO_LENGTH else f.dlc, [f.data])}
  {
    hide OpenMap, DoneBag, Push, Consistent, SlotsExhausted;
    PushRefines(slots, n, f);
  }

  /** The last frame of a transfer, single or not, puts exactly its packet into the bag. */
  lemma TransferFinishes(slots: seq<Slot>, n: nat, turns: seq<Turn>, net: Net, src: Src, packet: seq<Byte>)
    requires Consistent(slots) && |packet| >= 2 && IsTransfer(net, src, packet, FramesOf(turns)) && turns != []
    requires Undisturbed(slots, n, turns, Key(net, src, FromLe16(packet[0], packet[1])))
    ensures var before := Arrival(slots, n, turns, |turns| - 1);
            var after := Play(slots, n, turns);
            && Consistent(before) && Consistent(after)
            && DoneBag(after) == DoneBag(before) + multiset{Transfer(turns, net, src, packet)}
  {
    hide DoneBag, Consistent, SlotsExhausted, Push, Play;
    assert turns[..|turns|] == turns;
    PlayStep(slots, n, turns, |turns|);
    assert FramesOf(turns)[0] == turns[0].f;
    if |packet| <= 10 {
      assert Arrives(slots, n, turns, turns[0].f.id.key, 0);
      assert turns[..0] == [];
      GapConsistent(slots, n, turns[0].gap);
      NothingPlayed(slots, n);
      SingleDelivered(Arrival(slots, n, turns, 0), n, net, src, packet, turns[0].f);
      assert Chunks(turns) == [turns[0].f.data];
    } else {
      FrameFacts(turns, net, src, packet, 0);
      FrameFacts(turns, net, src, packet, |turns| - 1);
      Completed(slots, n, turns, net, src, packet);
    }
  }

  lemma NothingPlayed(slots: seq<Slot>, n: nat)
    ensures Play(slots, n, []) == slots
  {
  }

  /** Any packet of at least two bytes, its frames sent one by one, each start and sequence frame repeated
      any number of times, among arbitrary traffic of other keys, timer rounds and reads, and any number
      of other packets finished before or meanwhile: draining the codec after the last frame hands out
      what it would have handed out before it, and the identical packet with its sender exactly once
      more. */
  lemma EndToEnd(slots: seq<Slot>, n: nat, turns: seq<Turn>, net: Net, src: Src, packet: seq<Byte>,
                 sz: nat, src0: Src, src1: Src)
    requires Consistent(slots) && |packet| >= 2 && IsTransfer(net, src, packet, FramesOf(turns)) && turns != []
    requires Undisturbed(slots, n, turns, Key(net, src, FromLe16(packet[0], packet[1])))
    requires sz >= |packet| + 2
    ensures var before := Arrival(slots, n, turns, |turns| - 1);
            var after := Play(slots, n, turns);
            multiset(DrainReads(after, sz, src0))
            == multiset(DrainReads(before, sz, src1)) + multiset{Reading(packet, src)}
  {
    hide DoneBag, Consistent, DrainReads, Results, Result, Play, Arrival, Undisturbed, IsTransfer;
    var before := Arrival(slots, n, turns, |turns| - 1);
    var after := Play(slots, n, turns);
    var p := Transfer(turns, net, src, packet);
    TransferFinishes(slots, n, turns, net, src, packet);
    DrainedReads(before, sz, src1);
    DrainedReads(after, sz, src0);
    ResultsAdd(DoneBag(before), p, sz);
    ReadBack(turns, net, src, packet, sz);
  }

  lemma {:induction false} FinishedStays(slots: seq<Slot>, n: nat, es: seq<Event>)
    requires Consistent(slots) && forall i :: 0 <= i < |es| ==> !es[i].Read?
    ensures var r := RunFrom(slots, n, es); Consistent(r) && DoneBag(slots) <= DoneBag(r)
    decreases |es|
  {
    hide DoneBag, Consistent, OpenMap, Push;
    if es != [] {
      match es[0] {
        case Received(f) => PushRefines(slots, n, f);
        case Timer => AgeRefines(slots);
        case Read(_, _) => assert false;
      }
      FinishedStays(Step(slots, n, es[0]), n, es[1..]);
    }
  }

  /** The reads may come at any later time: until then the finished packet waits, whatever arrives. */
  lemma LaterEndToEnd(slots: seq<Slot>, n: nat, turns: seq<Turn>, net: Net, src: Src, packet: seq<Byte>,
                      later: seq<Event>, sz: nat, src0: Src)
    requires Consistent(slots) && |packet| >= 2 && IsTransfer(net, src, packet, FramesOf(turns)) && turns != []
    requires Undisturbed(slots, n, turns, Key(net, src, FromLe16(packet[0], packet[1])))
    requires sz >= |packet| + 2 && forall i :: 0 <= i < |later| ==> !later[i].Read?
    ensures Reading(packet, src) in DrainReads(RunFrom(Play(slots, n, turns), n, later), sz, src0)
  {
    hide DoneBag, Consistent, DrainReads, Results, Play, Arrival, Undisturbed, IsTransfer, RunFrom;
    var after := Play(slots, n, turns);
    var end := RunFrom(after, n, later);
    var p := Transfer(turns, net, src, packet);
    TransferFinishes(slots, n, turns, net, src, packet);
    FinishedStays(after, n, later);
    DrainedReads(end, sz, src0);
    ReadBack(turns, net, src, packet, sz);
    ResultsTake(DoneBag(end), p, sz);
    assert Reading(packet, src) in multiset(DrainReads(end, sz, src0));
  }

  /** Back to back into a row with nothing finished, enough free items and a free slot: the first read
      gives the packet, and no other read gives anything. */
  lemma Alone(slots: seq<Slot>, n: nat, net: Net, src: Src, packet: seq<Byte>, frames: seq<Frame>,
              sz: nat, src0: Src)
    requires Consistent(slots) && DoneBag(slots) == multiset{}
    requires |packet| >= 2 && IsTransfer(net, src, packet, frames)
    requires Used(slots) + |frames| <= n
    requires !SlotsExhausted(slots, Key(net, src, FromLe16(packet[0], packet[1])))
    requires sz >= |packet| + 2
    ensures DrainReads(Play(slots, n, BackToBack(frames)), sz, src0) == [Reading(packet, src)]
  {
    hide DoneBag, Consistent, SlotsExhausted, DrainReads, Results, Play, Undisturbed, IsTransfer;
    var turns := BackToBack(frames);
    assert FramesOf(turns) == frames;
    SomeFrames(net, src, packet, frames);
    UndisturbedBackToBack(slots, n, frames, Key(net, src, FromLe16(packet[0], packet[1])));
    var before := Arrival(slots, n, turns, |turns| - 1);
    NothingBefore(slots, n, frames, net, src, packet);
    EndToEnd(slots, n, turns, net, src, packet, sz, src0, src0);
    NoResults(sz);
    DrainedReads(before, sz, src0);
    OnlyOne(DrainReads(Play(slots, n, turns), sz, src0), Reading(packet, src));
  }

  lemma OnlyOne<T>(s: seq<T>, x: T)
    requires multiset(s) == multiset{x}
    ensures s == [x]
  {
    assert |s| == |multiset(s)| == 1;
    assert s[0] in multiset(s);
  }

  lemma SomeFrames(net: Net, src: Src, packet: seq<Byte>, frames: seq<Frame>)
    requires |packet| >= 2 && IsTransfer(net, src, packet, frames)
    ensures |frames| > 0 && (|packet| <= 10 ==> |frames| == 1) && 8 * |frames| <= |packet| + 8
  {
  }

  lemma NothingBefore(slots: seq<Slot>, n: nat, frames: seq<Frame>, net: Net, src: Src, packet: seq<Byte>)
    requires Consistent(slots) && DoneBag(slots) == multiset{} && frames != []
    requires |packet| >= 2 && IsTransfer(net, src, packet, frames)
    ensures var before := Arrival(slots, n, BackToBack(frames), |frames| - 1);
            Consistent(before) && DoneBag(before) == multiset{}
  {
    hide DoneBag, Consistent, IsTransfer, Play;
    SomeFrames(net, src, packet, frames);
    var turns := BackToBack(frames);
    if |packet| <= 10 {
      assert turns[..0] == [];
      NothingPlayed(slots, n);
    } else {
      NothingElseFinished(slots, n, frames, |frames| - 1, net, src, packet);
    }
  }

  /** Before its end frame a transfer finishes nothing. */
  lemma {:induction false} NothingElseFinished(slots: seq<Slot>, n: nat, frames: seq<Frame>, i: nat,
                                               net: Net, src: Src, packet: seq<Byte>)
    requires Consistent(slots) && |packet| > 10 && IsTransfer(net, src, packet, frames) && i < |frames|
    ensures Consistent(Play(slots, n, BackToBack(frames)[..i]))
    ensures DoneBag(Play(slots, n, BackToBack(frames)[..i])) == DoneBag(slots)
    decreases i
  {
    hide DoneBag, Consistent, OpenMap, Push, IsTransfer;
    if i > 0 {
      var turns := BackToBack(frames);
      NothingElseFinished(slots, n, frames, i - 1, net, src, packet);
      PlayStep(slots, n, turns, i);
      assert FramesOf(turns) == frames;
      FrameFacts(turns, net, src, packet, i - 1);
      NotFinishing(Play(slots, n, turns[..i - 1]), n, frames[i - 1]);
    }
  }

  lemma NotFinishing(slots: seq<Slot>, n: nat, f: Frame)
    requires Consistent(slots) && f.id.frm != FRM_END && f.id.frm != FRM_SINGLE
    ensures Consistent(Push(slots, n, f).0) && DoneBag(Push(slots, n, f).0) == DoneBag(slots)
  {
    hide DoneBag, Consistent, OpenMap, Push;
    PushRefines(slots, n, f);
  }

  lemma FreshRow(m: nat, key: Key)
    requires m > 0
    ensures var slots := EmptyRow(m);
            Consistent(slots) && DoneBag(slots) == multiset{} && Used(slots) == 0 && !SlotsExhausted(slots, key)
  {
    var slots := EmptyRow(m);
    UsedOfEmpty(slots);
    NoneFinished(slots);
    assert RemoveKey(slots, key)[0].Empty?;
  }

  // ---------- what comes out without a checksum test ----------

  /** A transfer as it should be escapes the test exactly if it is a single frame or the destination
      is too small for it. */
  lemma SentUnchecked(turns: seq<Turn>, net: Net, src: Src, packet: seq<Byte>, sz: nat)
    requires |packet| >= 2 && IsTransfer(net, src, packet, FramesOf(turns)) && turns != []
    ensures Unchecked(Transfer(turns, net, src, packet), sz)
            <==> |packet| <= 10 || (sz < 18 && sz < |packet| + 2)
  {
    hide Body, IsTransfer, Crc32.PacketCrc;
    SomeFrames(net, src, packet, FramesOf(turns));
    if |packet| > 10 {
      FrameFacts(turns, net, src, packet, |turns| - 1);
    }
  }

  /** A start frame, and an end frame that claims more than eight bytes. */
  function Overlong(key: Key, a: Chunk, b: Chunk, dlc: Dlc): seq<Event> {
    [Received(Frame(ExtId(key, FRM_START), 8, a)), Received(Frame(ExtId(key, FRM_END), dlc, b))]
  }

  /** In every pool they make a packet of two frames that is handed out as ten bytes without any test,
      whatever the frames carry and however large the destination is. */
  lemma OverlongUnchecked(m: nat, n: nat, key: Key, a: Chunk, b: Chunk, dlc: Dlc, sz: nat, src0: Src)
    requires m > 0 && n >= 2 && dlc > 8 && sz >= 10
    ensures DoneBag(Run(m, n, Overlong(key, a, b, dlc))) == multiset{Packet(key, dlc, [a, b])}
    ensures DrainReads(Run(m, n, Overlong(key, a, b, dlc)), sz, src0) == [Reading(Le16(key.pid) + a, key.src)]
  {
    hide DoneBag, Consistent, OpenMap, DrainReads, Results, Result, Unchecked, Run;
    var p := Packet(key, dlc, [a, b]);
    var r := Run(m, n, Overlong(key, a, b, dlc));
    OverlongRun(m, n, key, a, b, dlc);
    DrainedReads(r, sz, src0);
    assert DoneBag(r) == multiset{} + multiset{p};
    ResultsAdd(multiset{}, p, sz);
    NoResults(sz);
    UncheckedExact(p, sz) by {
      assert p.chunks != [];
    }
    OverlongBytes(p, sz);
    OnlyOne(DrainReads(r, sz, src0), Reading(Le16(key.pid) + a, key.src));
  }

  lemma OverlongBytes(p: Packet, sz: nat)
    requires |p.chunks| == 2 && p.dlc > 8 && sz >= 10
    ensures Unchecked(p, sz) && PacketBytes(p, sz) == Le16(p.key.pid) + p.chunks[0]
  {
    hide CopyChunks;
    CopyOnce(Le16(p.key.pid), p.chunks, p.dlc, sz);
    CopyOnce(Le16(p.key.pid) + p.chunks[0], p.chunks[1..], p.dlc, sz);
  }

  lemma OverlongRun(m: nat, n: nat, key: Key, a: Chunk, b: Chunk, dlc: Dlc)
    requires m > 0 && n >= 2 && dlc > 0
    ensures var r := Run(m, n, Overlong(key, a, b, dlc));
            Consistent(r) && DoneBag(r) == multiset{Packet(key, dlc, [a, b])}
  {
    hide DoneBag, Consistent, OpenMap, Push, SlotsExhausted, Used;
    var es := Overlong(key, a, b, dlc);
    var r0 := EmptyRow(m);
    assert es[..1] == [es[0]] && es[..1][..0] == [];
    FreshRow(m, key);
    PushRefines(r0, n, es[0].f);
    PushUsed(r0, n, es[0].f);
    var r1 := Push(r0, n, es[0].f).0;
    assert Run(m, n, es[..1]) == r1;
    PushRefines(r1, n, es[1].f);
    assert Abstract(r1) == Record(Abstract(r0), key, [a], 0);
    assert OpenMap(r1)[key] == Entry([a], 0, TIMEOUT) && [a] + [b] == [a, b];
  }

  // ---------- a pool fresh from init() ----------

  /** Every pool with a tree and enough items hands out the packet, and nothing else. */
  lemma FreshDelivers(m: nat, n: nat, net: Net, src: Src, packet: seq<Byte>, frames: seq<Frame>, sz: nat, src0: Src)
    requires m > 0 && |packet| >= 2 && IsTransfer(net, src, packet, frames) && |frames| <= n
    requires sz >= |packet| + 2
    ensures DrainReads(Play(EmptyRow(m), n, BackToBack(frames)), sz, src0) == [Reading(packet, src)]
  {
    hide SlotsExhausted, DrainReads, Play, BackToBack, EmptyRow, IsTransfer, Consistent, DoneBag, Used;
    FreshRow(m, Key(net, src, FromLe16(packet[0], packet[1])));
    Alone(EmptyRow(m), n, net, src, packet, frames, sz, src0);
  }

  /** The pool the library declares, 76 items and 8 trees: every packet that may be sent, 2 to 512 bytes,
      arrives. */
  lemma FreshPoolDelivers(net: Net, src: Src, packet: seq<Byte>, frames: seq<Frame>, src0: Src)
    requires 2 <= |packet| <= 512 && IsTransfer(net, src, packet, frames)
    ensures DrainReads(Play(EmptyRow(8), 76, BackToBack(frames)), |packet| + 2, src0) == [Reading(packet, src)]
  {
    hide DrainReads, Play, BackToBack, EmptyRow, IsTransfer;
    SomeFrames(net, src, packet, frames);
    FreshDelivers(8, 76, net, src, packet, frames, |packet| + 2, src0);
  }
}
