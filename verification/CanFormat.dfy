/** CAN identifiers and frames, and the reassembly pool seen as a row of slots:
    what every pool operation means once the linked lists are forgotten. */
module CanFormat {
  import opened Bytes

  type Frm = f: nat | f < 8
  const FRM_SEQ_MAX: Frm := 4
  const FRM_END: Frm := 5
  const FRM_START: Frm := 6
  const FRM_SINGLE: Frm := 7

  type Pid = p: nat | p < 0x1_0000
  type Src = s: nat | s < 128
  type Net = n: nat | n < 8

  /** The identifier bits that mf_id_mask keeps: everything but the frame id. */
  datatype Key = Key(net: Net, src: Src, pid: Pid)

  datatype ExtId = ExtId(key: Key, frm: Frm)

  /** Every CAN message carries eight data bytes; dlc says how many are meant. */
  type Chunk = c: seq<Byte> | |c| == 8 witness [0, 0, 0, 0, 0, 0, 0, 0]

  type Dlc = d: nat | d < 16

  datatype Frame = Frame(id: ExtId, dlc: Dlc, data: Chunk)

  datatype ErrorType =
    | PacketAvailable | MsgAccepted | MsgDropped
    | ErrorDLC | ErrorSlotsOverflow | ErrorTreeOverflow | ErrorSeqIdx | ErrorOrphan

  const TIMEOUT: Byte := 7
  const ZERO_LENGTH: Byte := 0xFF

  // ---------- the pool as a row of slots ----------

  /** dlc == 0 marks an unfinished packet; id.frm is then the frame expected next. */
  datatype Slot = Empty | Busy(id: ExtId, dlc: Byte, to: Byte, chunks: seq<Chunk>) {
    predicate Open() { Busy? && dlc == 0 }
    predicate Finished() { Busy? && dlc != 0 }
    predicate OpenFor(key: Key) { Open() && id.key == key }
    function Size(): nat { if Empty? then 0 else |chunks| }
  }

  function DropKey(s: Slot, key: Key): Slot {
    if s.OpenFor(key) then Empty else s
  }

  function Tick(s: Slot): Slot {
    if !s.Open() then s
    else if s.to == 0 then Empty
    else s.(to := s.to - 1)
  }

  function RemoveKey(slots: seq<Slot>, key: Key): (r: seq<Slot>)
    ensures |r| == |slots| && forall k :: 0 <= k < |slots| ==> r[k] == DropKey(slots[k], key)
  {
    seq(|slots|, k requires 0 <= k < |slots| => DropKey(slots[k], key))
  }

  function Timeout(slots: seq<Slot>): (r: seq<Slot>)
    ensures |r| == |slots| && forall k :: 0 <= k < |slots| ==> r[k] == Tick(slots[k])
  {
    seq(|slots|, k requires 0 <= k < |slots| => Tick(slots[k]))
  }

  predicate Expires(s: Slot) {
    s.Open() && s.to == 0
  }

  /** Whether any of the first k slots runs out of time in this round. */
  ghost predicate SomeExpires(slots: seq<Slot>, k: nat)
    requires k <= |slots|
  {
    exists j :: 0 <= j < k && Expires(slots[j])
  }

  lemma NoneExpires(slots: seq<Slot>)
    ensures !SomeExpires(slots, 0)
  {
  }

  lemma OneMoreExpires(slots: seq<Slot>, k: nat)
    requires k < |slots|
    ensures SomeExpires(slots, k + 1) <==> SomeExpires(slots, k) || Expires(slots[k])
  {
  }

  // The state of the two loops over the trees after the first k of them.

  ghost function RemoveKeyUpTo(slots: seq<Slot>, key: Key, k: nat): seq<Slot> {
    seq(|slots|, j requires 0 <= j < |slots| => if j < k then DropKey(slots[j], key) else slots[j])
  }

  lemma RemoveKeyEnds(slots: seq<Slot>, key: Key)
    ensures RemoveKeyUpTo(slots, key, 0) == slots
    ensures RemoveKeyUpTo(slots, key, |slots|) == RemoveKey(slots, key)
  {
  }

  lemma RemoveKeyStep(slots: seq<Slot>, key: Key, k: nat)
    requires k < |slots|
    ensures var r := RemoveKeyUpTo(slots, key, k);
            && |r| == |slots| && r[k] == slots[k]
            && RemoveKeyUpTo(slots, key, k + 1) == if slots[k].OpenFor(key) then r[k := Empty] else r
  {
  }

  ghost function TimeoutUpTo(slots: seq<Slot>, k: nat): seq<Slot> {
    seq(|slots|, j requires 0 <= j < |slots| => if j < k then Tick(slots[j]) else slots[j])
  }

  lemma TimeoutEnds(slots: seq<Slot>)
    ensures TimeoutUpTo(slots, 0) == slots
    ensures TimeoutUpTo(slots, |slots|) == Timeout(slots)
  {
  }

  lemma TimeoutUpToStep(slots: seq<Slot>, k: nat)
    requires k < |slots|
    ensures var r := TimeoutUpTo(slots, k);
            && |r| == |slots| && r[k] == slots[k]
            && TimeoutUpTo(slots, k + 1) == r[k := Tick(slots[k])]
  {
  }

  /** The first slot with an unfinished packet of this key, or |slots|. */
  function FindOpen(slots: seq<Slot>, key: Key): (k: nat)
    ensures k <= |slots| && (k < |slots| ==> slots[k].OpenFor(key))
    ensures forall j :: 0 <= j < k ==> !slots[j].OpenFor(key)
  {
    if slots == [] then 0
    else if slots[0].OpenFor(key) then 0
    else
      var k := FindOpen(slots[1..], key);
      assert forall j :: 0 < j < k + 1 ==> slots[j] == slots[1..][j - 1];
      k + 1
  }

  /** The first empty slot, or |slots|. */
  function FindEmpty(slots: seq<Slot>): (k: nat)
    ensures k <= |slots| && (k < |slots| ==> slots[k].Empty?)
    ensures forall j :: 0 <= j < k ==> !slots[j].Empty?
  {
    if slots == [] then 0
    else if slots[0].Empty? then 0
    else
      var k := FindEmpty(slots[1..]);
      assert forall j :: 0 < j < k + 1 ==> slots[j] == slots[1..][j - 1];
      k + 1
  }

  /** How many items the chains of all slots hold together. */
  function Used(slots: seq<Slot>): nat {
    if slots == [] then 0 else slots[0].Size() + Used(slots[1..])
  }

  lemma {:induction false} UsedAfterRemove(slots: seq<Slot>, key: Key)
    ensures Used(RemoveKey(slots, key)) <= Used(slots)
  {
    if slots != [] {
      assert RemoveKey(slots, key)[1..] == RemoveKey(slots[1..], key);
      UsedAfterRemove(slots[1..], key);
    }
  }

  function NextFrm(frm: Frm): Frm {
    if frm >= FRM_SEQ_MAX then 0 else frm + 1
  }

  function PrevFrm(frm: Frm): Frm {
    if frm > 0 then frm - 1 else FRM_SEQ_MAX
  }

  function PushNew(slots: seq<Slot>, id: ExtId, data: Chunk, dlc: Byte): (seq<Slot>, ErrorType) {
    var cleared := RemoveKey(slots, id.key);
    var k := FindEmpty(cleared);
    if k == |cleared| then (Timeout(cleared), ErrorTreeOverflow)
    else if dlc != 0 then (cleared[k := Busy(id, dlc, TIMEOUT, [data])], PacketAvailable)
    else (cleared[k := Busy(id.(frm := 0), 0, TIMEOUT, [data])], MsgAccepted)
  }

  /** A continuation frame meets the unfinished packet of its key: an end frame (dlc != 0) always
      closes it, a sequence frame must carry the expected number, and the number before that one
      is taken for a repetition. */
  function Continue(t: Slot, frm: Frm, data: Chunk, dlc: Byte): (Slot, ErrorType)
    requires t.Busy?
  {
    if dlc != 0 then
      (t.(to := TIMEOUT, dlc := dlc, chunks := t.chunks + [data]), PacketAvailable)
    else if frm == t.id.frm then
      (t.(to := TIMEOUT, id := t.id.(frm := NextFrm(t.id.frm)), chunks := t.chunks + [data]), MsgAccepted)
    else if frm == PrevFrm(t.id.frm) then (t, MsgDropped)
    else (t, ErrorOrphan)
  }

  lemma OrphanKeeps(t: Slot, frm: Frm, data: Chunk, dlc: Byte)
    requires t.Busy? && Continue(t, frm, data, dlc).1 == ErrorOrphan
    ensures Continue(t, frm, data, dlc).0 == t
  {
  }

  function PushNext(slots: seq<Slot>, id: ExtId, data: Chunk, dlc: Byte): (seq<Slot>, ErrorType) {
    var k := FindOpen(slots, id.key);
    if k == |slots| then (Timeout(RemoveKey(slots, id.key)), ErrorOrphan)
    else
      var (t, rv) := Continue(slots[k], id.frm, data, dlc);
      if rv == ErrorOrphan then (Timeout(RemoveKey(slots, id.key)), ErrorOrphan)
      else (slots[k := t], rv)
  }

  /** One message pushed into a pool of n items. */
  function Push(slots: seq<Slot>, n: nat, f: Frame): (seq<Slot>, ErrorType) {
    if Used(slots) == n then
      (RemoveKey(Timeout(slots), f.id.key), ErrorSlotsOverflow)
    else if f.id.frm == FRM_END then
      if f.dlc == 0 then (slots, ErrorDLC) else PushNext(slots, f.id, f.data, f.dlc)
    else if f.id.frm == FRM_START then
      if f.dlc != 8 then (slots, ErrorDLC) else PushNew(slots, f.id, f.data, 0)
    else if f.id.frm == FRM_SINGLE then
      PushNew(slots, f.id, f.data, if f.dlc > 0 then f.dlc else ZERO_LENGTH)
    else
      if f.dlc != 8 then (slots, ErrorDLC) else PushNext(slots, f.id, f.data, 0)
  }

  // ---------- reading a finished packet ----------

  /** Appends the chunks to a stream of capacity sz, the last one cut to dlc bytes. */
  function CopyChunks(out: seq<Byte>, chunks: seq<Chunk>, dlc: Byte, sz: nat): seq<Byte>
    decreases |chunks|
  {
    if chunks == [] then out
    else if |chunks| > 1 then
      if |out| + 8 > sz then out else CopyChunks(out + chunks[0], chunks[1..], dlc, sz)
    else if dlc <= 8 && |out| + dlc <= sz then out + chunks[0][..dlc]
    else out
  }

  function ReadBytes(slot: Slot, sz: nat): seq<Byte>
    requires slot.Busy?
  {
    CopyChunks(if 2 <= sz then Le16(slot.id.key.pid) else [], slot.chunks, slot.dlc, sz)
  }

  datatype ReadResult = ReadResult(slots: seq<Slot>, out: seq<Byte>, src: Src)

  /** Slots before k are passed over; every finished slot met is emptied until one yields bytes. */
  function ReadFrom(slots: seq<Slot>, k: nat, sz: nat, src: Src): ReadResult
    decreases |slots| - k
  {
    if k >= |slots| then ReadResult(slots, [], src)
    else if !slots[k].Finished() then ReadFrom(slots, k + 1, sz, src)
    else
      var out := ReadBytes(slots[k], sz);
      var rest := slots[k := Empty];
      if out != [] then ReadResult(rest, out, slots[k].id.key.src)
      else ReadFrom(rest, k + 1, sz, slots[k].id.key.src)
  }
}
