/** The reassembly protocol without slots: a map from (net, src, pid) to the unfinished packet of
    that key, and a bag of finished packets. The pool refines it step by step. */
module CanMap {
  import opened Bytes
  import opened CanFormat

  datatype Entry = Entry(chunks: seq<Chunk>, frm: Frm, to: Byte)

  datatype Packet = Packet(key: Key, dlc: Byte, chunks: seq<Chunk>)

  datatype Store = Store(open: map<Key, Entry>, done: multiset<Packet>)

  // ---------- the protocol ----------

  /** One round of ageing: an entry whose time is up disappears. */
  function Aged(open: map<Key, Entry>): map<Key, Entry> {
    map key | key in open && open[key].to > 0 :: open[key].(to := open[key].to - 1)
  }

  /** The key's unfinished packet is dropped and everybody else ages. */
  function Lose(st: Store, key: Key): Store {
    st.(open := Aged(st.open - {key}))
  }

  function Deliver(st: Store, packet: Packet): Store {
    Store(st.open - {packet.key}, st.done + multiset{packet})
  }

  function Record(st: Store, key: Key, chunks: seq<Chunk>, frm: Frm): Store {
    st.(open := st.open[key := Entry(chunks, frm, TIMEOUT)])
  }

  /** What a frame does, given whether the item pool is exhausted and whether no slot is left once the
      key's own unfinished packet is dropped. */
  function Receive(st: Store, f: Frame, itemsExhausted: bool, slotsExhausted: bool): (Store, ErrorType) {
    var key := f.id.key;
    if itemsExhausted then (Lose(st, key), ErrorSlotsOverflow)
    else if f.id.frm == FRM_SINGLE then
      if slotsExhausted then (Lose(st, key), ErrorTreeOverflow)
      else (Deliver(st, Packet(key, if f.dlc == 0 then ZERO_LENGTH else f.dlc, [f.data])), PacketAvailable)
    else if f.id.frm == FRM_END then
      if f.dlc == 0 then (st, ErrorDLC)
      else if key !in st.open then (Lose(st, key), ErrorOrphan)
      else (Deliver(st, Packet(key, f.dlc, st.open[key].chunks + [f.data])), PacketAvailable)
    else if f.dlc != 8 then (st, ErrorDLC)
    else if f.id.frm == FRM_START then
      if slotsExhausted then (Lose(st, key), ErrorTreeOverflow)
      else (Record(st, key, [f.data], 0), MsgAccepted)
    else if key !in st.open then (Lose(st, key), ErrorOrphan)
    else if f.id.frm == st.open[key].frm then
      (Record(st, key, st.open[key].chunks + [f.data], (f.id.frm + 1) % 5), MsgAccepted)
    else if (f.id.frm + 1) % 5 == st.open[key].frm then (st, MsgDropped)
    else (Lose(st, key), ErrorOrphan)
  }

  // ---------- the abstraction of a row of slots ----------

  /** At most one unfinished packet per key, always expecting a frame in 0..4; no slot is busy without data. */
  ghost predicate Consistent(slots: seq<Slot>) {
    && (forall i, j :: 0 <= i < j < |slots| && slots[i].Open() && slots[j].Open() ==>
          slots[i].id.key != slots[j].id.key)
    && (forall i :: 0 <= i < |slots| && slots[i].Open() ==> slots[i].id.frm <= FRM_SEQ_MAX)
    && (forall i :: 0 <= i < |slots| && slots[i].Busy? ==> slots[i].chunks != [])
  }

  ghost function EntryOf(s: Slot): Entry
    requires s.Busy?
  {
    Entry(s.chunks, s.id.frm, s.to)
  }

  ghost function OpenMap(slots: seq<Slot>): map<Key, Entry>
    requires Consistent(slots)
  {
    map i | 0 <= i < |slots| && slots[i].Open() :: slots[i].id.key := EntryOf(slots[i])
  }

  ghost function Finished(s: Slot): multiset<Packet> {
    if s.Finished() then multiset{Packet(s.id.key, s.dlc, s.chunks)} else multiset{}
  }

  ghost function DoneBag(slots: seq<Slot>): multiset<Packet> {
    if slots == [] then multiset{} else Finished(slots[0]) + DoneBag(slots[1..])
  }

  ghost function Abstract(slots: seq<Slot>): Store
    requires Consistent(slots)
  {
    Store(OpenMap(slots), DoneBag(slots))
  }

  lemma {:induction false} DoneUpdate(slots: seq<Slot>, k: nat, s: Slot)
    requires k < |slots|
    ensures DoneBag(slots[k := s]) + Finished(slots[k]) == DoneBag(slots) + Finished(s)
  {
    var r := slots[k := s];
    if k == 0 {
      assert r[1..] == slots[1..];
    } else {
      assert r[1..] == slots[1..][k - 1 := s];
      DoneUpdate(slots[1..], k - 1, s);
      Exchange(DoneBag(r[1..]), DoneBag(slots[1..]), Finished(slots[k]), Finished(s), Finished(slots[0]));
    }
  }

  lemma Exchange<T>(a: multiset<T>, b: multiset<T>, x: multiset<T>, y: multiset<T>, c: multiset<T>)
    requires a + x == b + y
    ensures c + a + x == c + b + y
  {
    assert c + a + x == c + (a + x) && c + b + y == c + (b + y);
  }

  lemma {:induction false} DoneSame(a: seq<Slot>, b: seq<Slot>)
    requires |a| == |b| && forall k :: 0 <= k < |a| ==> Finished(a[k]) == Finished(b[k])
    ensures DoneBag(a) == DoneBag(b)
  {
    if a != [] {
      assert forall k :: 0 <= k < |a[1..]| ==> a[1..][k] == a[k + 1] && b[1..][k] == b[k + 1];
      DoneSame(a[1..], b[1..]);
    }
  }

  lemma OpenHas(slots: seq<Slot>, i: nat)
    requires Consistent(slots) && i < |slots| && slots[i].Open()
    ensures slots[i].id.key in OpenMap(slots) && OpenMap(slots)[slots[i].id.key] == EntryOf(slots[i])
  {
  }

  lemma OpenWitness(slots: seq<Slot>, key: Key) returns (i: nat)
    requires Consistent(slots) && key in OpenMap(slots)
    ensures i < |slots| && slots[i].OpenFor(key) && OpenMap(slots)[key] == EntryOf(slots[i])
  {
    i :| 0 <= i < |slots| && slots[i].Open() && slots[i].id.key == key;
  }

  /** A row of slots has the open map m when the two agree key by key. */
  lemma OpenIs(slots: seq<Slot>, m: map<Key, Entry>)
    requires Consistent(slots)
    requires forall i :: 0 <= i < |slots| && slots[i].Open() ==>
               slots[i].id.key in m && m[slots[i].id.key] == EntryOf(slots[i])
    requires forall key :: key in m ==> exists i :: 0 <= i < |slots| && slots[i].OpenFor(key)
    ensures OpenMap(slots) == m
  {
    forall key | key in OpenMap(slots) ensures key in m && OpenMap(slots)[key] == m[key] {
      var i := OpenWitness(slots, key);
    }
    forall key | key in m ensures key in OpenMap(slots) {
      var i :| 0 <= i < |slots| && slots[i].OpenFor(key);
      OpenHas(slots, i);
    }
  }

  // ---------- each slot operation on the map ----------

  /** Dropping or ageing packets keeps the row consistent. */
  lemma FewerConsistent(slots: seq<Slot>, r: seq<Slot>)
    requires Consistent(slots) && |r| == |slots|
    requires forall i :: 0 <= i < |slots| && r[i].Busy? ==>
               && slots[i].Busy? && r[i].id == slots[i].id && r[i].dlc == slots[i].dlc
               && r[i].chunks == slots[i].chunks
    ensures Consistent(r)
  {
    forall i, j | 0 <= i < j < |r| && r[i].Open() && r[j].Open() ensures r[i].id.key != r[j].id.key {
      assert slots[i].Open() && slots[j].Open();
    }
  }

  lemma RemoveRefines(slots: seq<Slot>, key: Key)
    requires Consistent(slots)
    ensures Consistent(RemoveKey(slots, key))
    ensures OpenMap(RemoveKey(slots, key)) == OpenMap(slots) - {key}
    ensures DoneBag(RemoveKey(slots, key)) == DoneBag(slots)
  {
    var r := RemoveKey(slots, key);
    FewerConsistent(slots, r);
    DoneSame(r, slots);
    RemoveOpen(slots, r, key);
  }

  lemma RemoveOpen(slots: seq<Slot>, r: seq<Slot>, key: Key)
    requires Consistent(slots) && Consistent(r) && r == RemoveKey(slots, key)
    ensures OpenMap(r) == OpenMap(slots) - {key}
  {
    hide OpenMap, Consistent;
    var m := OpenMap(slots) - {key};
    forall i | 0 <= i < |r| && r[i].Open()
      ensures r[i].id.key in m && m[r[i].id.key] == EntryOf(r[i])
    {
      OpenHas(slots, i);
    }
    forall k | k in m ensures exists i :: 0 <= i < |r| && r[i].OpenFor(k) {
      var i := OpenWitness(slots, k);
      assert r[i].OpenFor(k);
    }
    OpenIs(r, m);
  }

  lemma AgeRefines(slots: seq<Slot>)
    requires Consistent(slots)
    ensures Consistent(Timeout(slots))
    ensures OpenMap(Timeout(slots)) == Aged(OpenMap(slots))
    ensures DoneBag(Timeout(slots)) == DoneBag(slots)
  {
    var r := Timeout(slots);
    FewerConsistent(slots, r);
    DoneSame(r, slots);
    AgeOpen(slots, r);
  }

  lemma AgeOpen(slots: seq<Slot>, r: seq<Slot>)
    requires Consistent(slots) && Consistent(r) && r == Timeout(slots)
    ensures OpenMap(r) == Aged(OpenMap(slots))
  {
    hide OpenMap, Consistent;
    var m := Aged(OpenMap(slots));
    forall i | 0 <= i < |r| && r[i].Open()
      ensures r[i].id.key in m && m[r[i].id.key] == EntryOf(r[i])
    {
      OpenHas(slots, i);
    }
    forall k | k in m ensures exists i :: 0 <= i < |r| && r[i].OpenFor(k) {
      var i := OpenWitness(slots, k);
      assert r[i].OpenFor(k);
    }
    OpenIs(r, m);
  }

  /** Slot k, not finished, takes a packet of its own key or, if it is empty, of a key open nowhere. */
  ghost predicate Takes(slots: seq<Slot>, k: nat, s: Slot) {
    && Consistent(slots) && k < |slots| && !slots[k].Finished()
    && s.Busy? && s.chunks != [] && (s.Open() ==> s.id.frm <= FRM_SEQ_MAX)
    && (slots[k].Open() ==> slots[k].id.key == s.id.key)
    && forall i :: 0 <= i < |slots| && i != k ==> !slots[i].OpenFor(s.id.key)
  }

  lemma OpenRefines(slots: seq<Slot>, k: nat, s: Slot)
    requires Takes(slots, k, s) && s.Open()
    ensures Consistent(slots[k := s])
    ensures OpenMap(slots[k := s]) == OpenMap(slots)[s.id.key := EntryOf(s)]
    ensures DoneBag(slots[k := s]) == DoneBag(slots)
  {
    var r := slots[k := s];
    DoneSame(r, slots);
    OpenUpdate(slots, r, k, s);
  }

  lemma OpenUpdate(slots: seq<Slot>, r: seq<Slot>, k: nat, s: Slot)
    requires Takes(slots, k, s) && s.Open() && Consistent(r) && r == slots[k := s]
    ensures OpenMap(r) == OpenMap(slots)[s.id.key := EntryOf(s)]
  {
    hide OpenMap, Consistent;
    var m := OpenMap(slots)[s.id.key := EntryOf(s)];
    forall i | 0 <= i < |r| && r[i].Open()
      ensures r[i].id.key in m && m[r[i].id.key] == EntryOf(r[i])
    {
      if i != k {
        OpenHas(slots, i);
      }
    }
    forall key | key in m ensures exists i :: 0 <= i < |r| && r[i].OpenFor(key) {
      if key == s.id.key {
        assert r[k].OpenFor(key);
      } else {
        var i := OpenWitness(slots, key);
        assert r[i].OpenFor(key);
      }
    }
    OpenIs(r, m);
  }

  lemma FinishRefines(slots: seq<Slot>, k: nat, s: Slot)
    requires Takes(slots, k, s) && s.Finished()
    ensures Consistent(slots[k := s])
    ensures OpenMap(slots[k := s]) == OpenMap(slots) - {s.id.key}
    ensures DoneBag(slots[k := s]) == DoneBag(slots) + multiset{Packet(s.id.key, s.dlc, s.chunks)}
  {
    var r := slots[k := s];
    DoneUpdate(slots, k, s);
    FinishOpen(slots, r, k, s);
  }

  lemma FinishOpen(slots: seq<Slot>, r: seq<Slot>, k: nat, s: Slot)
    requires Takes(slots, k, s) && s.Finished() && Consistent(r) && r == slots[k := s]
    ensures OpenMap(r) == OpenMap(slots) - {s.id.key}
  {
    hide OpenMap, Consistent;
    var m := OpenMap(slots) - {s.id.key};
    forall i | 0 <= i < |r| && r[i].Open()
      ensures r[i].id.key in m && m[r[i].id.key] == EntryOf(r[i])
    {
      OpenHas(slots, i);
    }
    forall key | key in m ensures exists i :: 0 <= i < |r| && r[i].OpenFor(key) {
      var i := OpenWitness(slots, key);
      assert r[i].OpenFor(key);
    }
    OpenIs(r, m);
  }

  /** Slot k, finished, is emptied: one packet leaves the bag. */
  lemma TakeRefines(slots: seq<Slot>, k: nat)
    requires Consistent(slots) && k < |slots| && slots[k].Finished()
    ensures Consistent(slots[k := Empty])
    ensures OpenMap(slots[k := Empty]) == OpenMap(slots)
    ensures DoneBag(slots) == DoneBag(slots[k := Empty]) + Finished(slots[k])
  {
    var r := slots[k := Empty];
    FewerConsistent(slots, r);
    DoneUpdate(slots, k, Empty);
    TakeOpen(slots, r, k);
  }

  lemma TakeOpen(slots: seq<Slot>, r: seq<Slot>, k: nat)
    requires Consistent(slots) && k < |slots| && slots[k].Finished() && Consistent(r) && r == slots[k := Empty]
    ensures OpenMap(r) == OpenMap(slots)
  {
    hide OpenMap, Consistent;
    var m := OpenMap(slots);
    forall i | 0 <= i < |r| && r[i].Open()
      ensures r[i].id.key in m && m[r[i].id.key] == EntryOf(r[i])
    {
      OpenHas(slots, i);
    }
    forall key | key in m ensures exists i :: 0 <= i < |r| && r[i].OpenFor(key) {
      var i := OpenWitness(slots, key);
      assert r[i].OpenFor(key);
    }
    OpenIs(r, m);
  }

  // ---------- the refinement ----------

  predicate SlotsExhausted(slots: seq<Slot>, key: Key) {
    FindEmpty(RemoveKey(slots, key)) == |slots|
  }

  lemma AgedWithout(open: map<Key, Entry>, key: Key)
    ensures Aged(open) - {key} == Aged(open - {key})
  {
  }

  lemma LoseRefines(slots: seq<Slot>, key: Key)
    requires Consistent(slots)
    ensures Consistent(Timeout(RemoveKey(slots, key))) && Consistent(RemoveKey(Timeout(slots), key))
    ensures Abstract(Timeout(RemoveKey(slots, key))) == Lose(Abstract(slots), key)
    ensures Abstract(RemoveKey(Timeout(slots), key)) == Lose(Abstract(slots), key)
  {
    hide OpenMap, DoneBag, Consistent, Aged, RemoveKey, Timeout;
    RemoveRefines(slots, key);
    AgeRefines(RemoveKey(slots, key));
    AgeRefines(slots);
    RemoveRefines(Timeout(slots), key);
    AgedWithout(OpenMap(slots), key);
  }

  lemma RecordRefines(slots: seq<Slot>, k: nat, s: Slot)
    requires Takes(slots, k, s) && s.Open() && s.to == TIMEOUT
    ensures Consistent(slots[k := s])
    ensures Abstract(slots[k := s]) == Record(Abstract(slots), s.id.key, s.chunks, s.id.frm)
  {
    OpenRefines(slots, k, s);
  }

  lemma DeliverRefines(slots: seq<Slot>, k: nat, s: Slot)
    requires Takes(slots, k, s) && s.Finished()
    ensures Consistent(slots[k := s])
    ensures Abstract(slots[k := s]) == Deliver(Abstract(slots), Packet(s.id.key, s.dlc, s.chunks))
  {
    FinishRefines(slots, k, s);
  }

  lemma ClearedTakes(slots: seq<Slot>, k: nat, s: Slot)
    requires s.Busy? && s.chunks != [] && (s.Open() ==> s.id.frm <= FRM_SEQ_MAX)
    requires Consistent(slots) && Consistent(RemoveKey(slots, s.id.key))
    requires k < |slots| && RemoveKey(slots, s.id.key)[k].Empty?
    ensures Takes(RemoveKey(slots, s.id.key), k, s)
  {
  }

  lemma PushNewRefines(slots: seq<Slot>, id: ExtId, data: Chunk, dlc: Byte)
    requires Consistent(slots)
    ensures Consistent(PushNew(slots, id, data, dlc).0)
    ensures (Abstract(PushNew(slots, id, data, dlc).0), PushNew(slots, id, data, dlc).1) ==
            var st := Abstract(slots);
            if SlotsExhausted(slots, id.key) then (Lose(st, id.key), ErrorTreeOverflow)
            else if dlc == 0 then (Record(st, id.key, [data], 0), MsgAccepted)
            else (Deliver(st, Packet(id.key, dlc, [data])), PacketAvailable)
  {
    hide OpenMap, DoneBag, Consistent, Lose, Timeout, Takes, FindEmpty;
    var cleared := RemoveKey(slots, id.key);
    RemoveRefines(slots, id.key);
    LoseRefines(slots, id.key);
    var k := FindEmpty(cleared);
    var m := OpenMap(slots);
    if k < |cleared| {
      var s := if dlc == 0 then Busy(id.(frm := 0), 0, TIMEOUT, [data]) else Busy(id, dlc, TIMEOUT, [data]);
      ClearedTakes(slots, k, s);
      if dlc == 0 {
        RecordRefines(cleared, k, s);
        assert (m - {id.key})[id.key := EntryOf(s)] == m[id.key := EntryOf(s)];
      } else {
        DeliverRefines(cleared, k, s);
        assert m - {id.key} - {id.key} == m - {id.key};
      }
    }
  }

  /** Whether a key is open is what the search of the slots finds. */
  lemma FindIsLookup(slots: seq<Slot>, key: Key)
    requires Consistent(slots)
    ensures FindOpen(slots, key) < |slots| <==> key in OpenMap(slots)
    ensures FindOpen(slots, key) < |slots| ==>
              OpenMap(slots)[key] == EntryOf(slots[FindOpen(slots, key)])
  {
    var k := FindOpen(slots, key);
    if k < |slots| {
      OpenHas(slots, k);
    } else if key in OpenMap(slots) {
      var i := OpenWitness(slots, key);
    }
  }

  lemma ContinueTakes(slots: seq<Slot>, k: nat, frm: Frm, data: Chunk, dlc: Byte)
    requires Consistent(slots) && k < |slots| && slots[k].Open()
    ensures Takes(slots, k, Continue(slots[k], frm, data, dlc).0) && slots[k].id.frm <= FRM_SEQ_MAX
  {
    assert forall i :: 0 <= i < |slots| && i != k ==> !slots[i].OpenFor(slots[k].id.key);
  }

  lemma PushNextRefines(slots: seq<Slot>, id: ExtId, data: Chunk, dlc: Byte)
    requires Consistent(slots) && (dlc == 0 ==> id.frm <= FRM_SEQ_MAX)
    ensures Consistent(PushNext(slots, id, data, dlc).0)
    ensures (Abstract(PushNext(slots, id, data, dlc).0), PushNext(slots, id, data, dlc).1) ==
            var st := Abstract(slots);
            var key := id.key;
            if key !in st.open then (Lose(st, key), ErrorOrphan)
            else if dlc != 0 then (Deliver(st, Packet(key, dlc, st.open[key].chunks + [data])), PacketAvailable)
            else if id.frm == st.open[key].frm then
              (Record(st, key, st.open[key].chunks + [data], (id.frm + 1) % 5), MsgAccepted)
            else if (id.frm + 1) % 5 == st.open[key].frm then (st, MsgDropped)
            else (Lose(st, key), ErrorOrphan)
  {
    hide OpenMap, DoneBag, Consistent, Lose, RemoveKey, Timeout, FindOpen, Takes;
    var k := FindOpen(slots, id.key);
    FindIsLookup(slots, id.key);
    LoseRefines(slots, id.key);
    if k < |slots| {
      var (t, rv) := Continue(slots[k], id.frm, data, dlc);
      ContinueTakes(slots, k, id.frm, data, dlc);
      if rv == PacketAvailable {
        DeliverRefines(slots, k, t);
      } else if rv == MsgAccepted {
        RecordRefines(slots, k, t);
      } else if rv == MsgDropped {
        assert slots[k := t] == slots;
      }
    }
  }

  /** Every push on the row of slots is the protocol's step on the map. */
  lemma PushRefines(slots: seq<Slot>, n: nat, f: Frame)
    requires Consistent(slots)
    ensures Consistent(Push(slots, n, f).0)
    ensures (Abstract(Push(slots, n, f).0), Push(slots, n, f).1)
            == Receive(Abstract(slots), f, Used(slots) == n, SlotsExhausted(slots, f.id.key))
  {
    hide OpenMap, DoneBag, Consistent, Abstract, PushNew, PushNext, Lose, Record, Deliver;
    LoseRefines(slots, f.id.key);
    if f.id.frm == FRM_START {
      PushNewRefines(slots, f.id, f.data, 0);
    } else if f.id.frm == FRM_SINGLE {
      PushNewRefines(slots, f.id, f.data, if f.dlc > 0 then f.dlc else ZERO_LENGTH);
    } else if f.id.frm == FRM_END {
      if f.dlc > 0 {
        PushNextRefines(slots, f.id, f.data, f.dlc);
      }
    } else {
      PushNextRefines(slots, f.id, f.data, 0);
    }
  }

  // ---------- consequences on the map ----------

  /** Transfers do not mix: a frame leaves every other key's data alone; at worst that key ages by
      one round, and only when the frame was rejected. Finished packets stay, and a new one is the frame's. */
  lemma OtherKeysUntouched(st: Store, f: Frame, items: bool, slots: bool, key: Key)
    requires key != f.id.key
    ensures var (r, rv) := Receive(st, f, items, slots);
            && (key in r.open ==> key in st.open)
            && (key in st.open ==>
                  var e := st.open[key];
                  if rv in {ErrorOrphan, ErrorSlotsOverflow, ErrorTreeOverflow} then
                    if e.to == 0 then key !in r.open else key in r.open && r.open[key] == e.(to := e.to - 1)
                  else key in r.open && r.open[key] == e)
            && st.done <= r.done
            && forall p :: p in r.done && p !in st.done ==> p.key == f.id.key
  {
  }

  ghost function BusyCount(slots: seq<Slot>): nat {
    if slots == [] then 0 else (if slots[0].Busy? then 1 else 0) + BusyCount(slots[1..])
  }

  lemma {:induction false} BusySnoc(slots: seq<Slot>, s: Slot)
    ensures BusyCount(slots + [s]) == BusyCount(slots) + if s.Busy? then 1 else 0
    ensures DoneBag(slots + [s]) == DoneBag(slots) + Finished(s)
  {
    if slots == [] {
      assert (slots + [s])[1..] == [];
    } else {
      assert (slots + [s])[1..] == slots[1..] + [s];
      BusySnoc(slots[1..], s);
    }
  }

  /** The slots in use are exactly the entries of the map and the packets in the bag. */
  lemma {:induction false} SlotsAccounted(slots: seq<Slot>)
    requires Consistent(slots)
    ensures BusyCount(slots) == |OpenMap(slots)| + |DoneBag(slots)|
  {
    if slots == [] {
      assert OpenMap(slots) == map[];
    } else {
      var n := |slots| - 1;
      var front, s := slots[..n], slots[n];
      assert slots == front + [s];
      assert Consistent(front);
      SlotsAccounted(front);
      BusySnoc(front, s);
      FrontOpen(slots);
    }
  }

  lemma FrontOpen(slots: seq<Slot>)
    requires slots != [] && Consistent(slots) && Consistent(slots[..|slots| - 1])
    ensures var n := |slots| - 1;
            && (!slots[n].Open() ==> OpenMap(slots) == OpenMap(slots[..n]))
            && (slots[n].Open() ==>
                  && slots[n].id.key !in OpenMap(slots[..n])
                  && OpenMap(slots) == OpenMap(slots[..n])[slots[n].id.key := EntryOf(slots[n])])
  {
    hide OpenMap;
    var n := |slots| - 1;
    var front := slots[..n];
    var m := if slots[n].Open() then OpenMap(front)[slots[n].id.key := EntryOf(slots[n])] else OpenMap(front);
    if slots[n].Open() && slots[n].id.key in OpenMap(front) {
      var i := OpenWitness(front, slots[n].id.key);
      assert false;
    }
    forall i | 0 <= i < |slots| && slots[i].Open()
      ensures slots[i].id.key in m && m[slots[i].id.key] == EntryOf(slots[i])
    {
      if i < n {
        assert front[i] == slots[i];
        OpenHas(front, i);
      }
    }
    forall key | key in m ensures exists i :: 0 <= i < |slots| && slots[i].OpenFor(key) {
      if key in OpenMap(front) {
        var i := OpenWitness(front, key);
        assert slots[i].OpenFor(key);
      } else {
        assert slots[n].OpenFor(key);
      }
    }
    OpenIs(slots, m);
  }

  lemma {:induction false} FullRow(slots: seq<Slot>)
    ensures BusyCount(slots) <= |slots|
    ensures FindEmpty(slots) == |slots| <==> BusyCount(slots) == |slots|
  {
    if slots != [] {
      FullRow(slots[1..]);
    }
  }

  /** The environment's second flag is a fact about the map: without the key's own entry, entries and
      finished packets together occupy every slot. */
  lemma ExhaustedMeaning(slots: seq<Slot>, key: Key)
    requires Consistent(slots)
    ensures SlotsExhausted(slots, key) <==>
              |Abstract(slots).open - {key}| + |Abstract(slots).done| == |slots|
  {
    RemoveRefines(slots, key);
    SlotsAccounted(RemoveKey(slots, key));
    FullRow(RemoveKey(slots, key));
  }

  // ---------- the protocol closed in itself ----------

  ghost function ChunksOpen(open: map<Key, Entry>): nat
    decreases |open|
  {
    if open == map[] then 0
    else
      var key :| key in open;
      |open[key].chunks| + ChunksOpen(open - {key})
  }

  ghost function ChunksDone(done: multiset<Packet>): nat
    decreases |done|
  {
    if done == multiset{} then 0
    else
      var p :| p in done;
      |p.chunks| + ChunksDone(done - multiset{p})
  }

  lemma OneOpen(open: map<Key, Entry>) returns (key: Key)
    requires open != map[]
    ensures key in open && ChunksOpen(open) == |open[key].chunks| + ChunksOpen(open - {key})
  {
    key :| key in open && ChunksOpen(open) == |open[key].chunks| + ChunksOpen(open - {key});
  }

  lemma OneDone(done: multiset<Packet>) returns (p: Packet)
    requires done != multiset{}
    ensures p in done && ChunksDone(done) == |p.chunks| + ChunksDone(done - multiset{p})
  {
    p :| p in done && ChunksDone(done) == |p.chunks| + ChunksDone(done - multiset{p});
  }

  lemma {:induction false} OpenTake(open: map<Key, Entry>, key: Key)
    requires key in open
    ensures ChunksOpen(open) == |open[key].chunks| + ChunksOpen(open - {key})
    decreases |open|
  {
    hide ChunksOpen;
    var k := OneOpen(open);
    if k != key {
      OpenTake(open - {k}, key);
      OpenTake(open - {key}, k);
      assert open - {k} - {key} == open - {key} - {k};
    }
  }

  lemma {:induction false} DoneTake(done: multiset<Packet>, q: Packet)
    requires q in done
    ensures ChunksDone(done) == |q.chunks| + ChunksDone(done - multiset{q})
    decreases |done|
  {
    hide ChunksDone;
    var p := OneDone(done);
    if p != q {
      DoneTake(done - multiset{p}, q);
      DoneTake(done - multiset{q}, p);
      assert done - multiset{p} - multiset{q} == done - multiset{q} - multiset{p};
    }
  }

  /** The items that the unfinished and the finished packets hold together. */
  ghost function Held(st: Store): nat {
    ChunksOpen(st.open) + ChunksDone(st.done)
  }

  lemma {:induction false} UsedSnoc(slots: seq<Slot>, s: Slot)
    ensures Used(slots + [s]) == Used(slots) + s.Size()
  {
    if slots == [] {
      assert (slots + [s])[1..] == [];
    } else {
      assert (slots + [s])[1..] == slots[1..] + [s];
      UsedSnoc(slots[1..], s);
    }
  }

  /** The environment's first flag is a fact about the map as well: the items in use are the chunks of
      all entries and of all finished packets. */
  lemma {:induction false} UsedIsHeld(slots: seq<Slot>)
    requires Consistent(slots)
    ensures Used(slots) == Held(Abstract(slots))
  {
    hide Used, DoneBag, ChunksOpen, ChunksDone;
    if slots == [] {
      NothingHeld(slots);
    } else {
      var n := |slots| - 1;
      var front, s := slots[..n], slots[n];
      assert slots == front + [s];
      assert Consistent(front);
      UsedIsHeld(front);
      UsedSnoc(front, s);
      BusySnoc(front, s);
      FrontOpen(slots);
      LastHeld(front, s, OpenMap(front), OpenMap(slots));
    }
  }

  lemma NothingHeld(slots: seq<Slot>)
    requires slots == [] && Consistent(slots)
    ensures Used(slots) == 0 && OpenMap(slots) == map[] && DoneBag(slots) == multiset{}
    ensures ChunksOpen(map[]) == 0 && ChunksDone(multiset{}) == 0
  {
  }

  lemma LastHeld(front: seq<Slot>, s: Slot, before: map<Key, Entry>, after: map<Key, Entry>)
    requires !s.Open() ==> after == before
    requires s.Open() ==> s.id.key !in before && after == before[s.id.key := EntryOf(s)]
    ensures ChunksOpen(after) + ChunksDone(DoneBag(front) + Finished(s))
            == ChunksOpen(before) + ChunksDone(DoneBag(front)) + s.Size()
  {
    hide ChunksOpen, ChunksDone, DoneBag;
    if s.Open() {
      OpenTake(after, s.id.key);
      assert after - {s.id.key} == before;
    } else if s.Finished() {
      var p := Packet(s.id.key, s.dlc, s.chunks);
      DoneTake(DoneBag(front) + multiset{p}, p);
      assert DoneBag(front) + multiset{p} - multiset{p} == DoneBag(front);
    }
    assert DoneBag(front) + multiset{} == DoneBag(front);
  }

  /** The protocol with m slots and n items, on the map and the bag alone. */
  ghost function Accept(st: Store, m: nat, n: nat, f: Frame): (Store, ErrorType) {
    Receive(st, f, Held(st) == n, |st.open - {f.id.key}| + |st.done| == m)
  }

  /** Every push on the row of slots is a step of the closed protocol. */
  lemma PushIsAccept(slots: seq<Slot>, n: nat, f: Frame)
    requires Consistent(slots)
    ensures Consistent(Push(slots, n, f).0)
    ensures (Abstract(Push(slots, n, f).0), Push(slots, n, f).1) == Accept(Abstract(slots), |slots|, n, f)
  {
    hide OpenMap, DoneBag, Consistent, Held, Receive, Push, SlotsExhausted, Used;
    PushRefines(slots, n, f);
    UsedIsHeld(slots);
    ExhaustedMeaning(slots, f.id.key);
  }

  /** Reading takes one finished packet out of the bag, or nothing: what it returns are that packet's
      bytes, in the order of its chunks. With room for a header every read succeeds at once. */
  lemma {:induction false} ReadRefines(slots: seq<Slot>, k: nat, sz: nat, src: Src)
    requires Consistent(slots) && k <= |slots| && 2 <= sz
    requires forall i :: 0 <= i < k ==> !slots[i].Finished()
    ensures var r := ReadFrom(slots, k, sz, src);
            && Consistent(r.slots) && OpenMap(r.slots) == OpenMap(slots)
            && (DoneBag(slots) == multiset{} <==> r.out == [])
            && (r.out == [] ==> r.slots == slots && r.src == src)
            && (r.out != [] ==>
                  exists p :: (&& DoneBag(slots) == DoneBag(r.slots) + multiset{p}
                               && r.src == p.key.src
                               && r.out == CopyChunks(Le16(p.key.pid), p.chunks, p.dlc, sz)))
    decreases |slots| - k
  {
    if k == |slots| {
      NoneFinished(slots);
    } else if !slots[k].Finished() {
      ReadRefines(slots, k + 1, sz, src);
    } else {
      var s := slots[k];
      TakeRefines(slots, k);
      CopyGrows(Le16(s.id.key.pid), s.chunks, s.dlc, sz);
      var p := Packet(s.id.key, s.dlc, s.chunks);
      assert DoneBag(slots) == DoneBag(slots[k := Empty]) + multiset{p};
      assert p in DoneBag(slots);
    }
  }

  /** A destination too small for the identifier still gives bytes in one case: one byte of room and a
      finished packet of one frame with one byte. Every packet passed over before it is lost. */
  ghost predicate Leaks(p: Packet, sz: nat) {
    sz == 1 && |p.chunks| == 1 && p.dlc == 1
  }

  lemma {:induction false} ShortReadRefines(slots: seq<Slot>, k: nat, sz: nat, src: Src)
    returns (lost: multiset<Packet>, p: Packet)
    requires Consistent(slots) && k <= |slots| && sz < 2
    requires forall i :: 0 <= i < k ==> !slots[i].Finished()
    ensures var r := ReadFrom(slots, k, sz, src);
            && Consistent(r.slots) && OpenMap(r.slots) == OpenMap(slots)
            && (forall q :: q in lost ==> !Leaks(q, sz))
            && (r.out == [] ==> DoneBag(slots) == lost && DoneBag(r.slots) == multiset{})
            && (r.out != [] ==>
                  && DoneBag(slots) == DoneBag(r.slots) + lost + multiset{p}
                  && Leaks(p, sz) && r.out == [p.chunks[0][0]] && r.src == p.key.src)
    decreases |slots| - k
  {
    hide OpenMap, DoneBag, ReadBytes;
    lost, p := multiset{}, Packet(Key(0, 0, 0), 0, []);
    if k == |slots| {
      NoneFinished(slots);
    } else if !slots[k].Finished() {
      lost, p := ShortReadRefines(slots, k + 1, sz, src);
    } else {
      var s := slots[k];
      p := Packet(s.id.key, s.dlc, s.chunks);
      TakeRefines(slots, k);
      ShortBytes(s, sz);
      if !Leaks(p, sz) {
        var rest;
        rest, p := ShortReadRefines(slots[k := Empty], k + 1, sz, s.id.key.src);
        lost := rest + Finished(s);
      }
    }
  }

  lemma ShortBytes(s: Slot, sz: nat)
    requires s.Finished() && s.chunks != [] && sz < 2
    ensures ReadBytes(s, sz) == if sz == 1 && |s.chunks| == 1 && s.dlc == 1 then [s.chunks[0][0]] else []
  {
  }

  lemma {:induction false} NoneFinished(slots: seq<Slot>)
    requires forall i :: 0 <= i < |slots| ==> !slots[i].Finished()
    ensures DoneBag(slots) == multiset{}
  {
    if slots != [] {
      assert forall i :: 0 <= i < |slots[1..]| ==> slots[1..][i] == slots[i + 1];
      NoneFinished(slots[1..]);
    }
  }

  lemma {:induction false} CopyGrows(out: seq<Byte>, chunks: seq<Chunk>, dlc: Byte, sz: nat)
    ensures |CopyChunks(out, chunks, dlc, sz)| >= |out|
    decreases |chunks|
  {
    if |chunks| > 1 && |out| + 8 <= sz {
      CopyGrows(out + chunks[0], chunks[1..], dlc, sz);
    }
  }
}
