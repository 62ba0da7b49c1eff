/** Whole runs of the pool: where every stored chunk came from, what repetition and loss of frames do. */
module CanRuns {
  import opened Bytes
  import opened CanFormat
  import opened CanMap

  datatype Event = Received(f: Frame) | Timer | Read(sz: nat, src: Src)

  function Step(slots: seq<Slot>, n: nat, ev: Event): seq<Slot> {
    match ev
    case Received(f) => Push(slots, n, f).0
    case Timer => Timeout(slots)
    case Read(sz, src) => ReadFrom(slots, 0, sz, src).slots
  }

  function EmptyRow(m: nat): (slots: seq<Slot>)
    ensures |slots| == m && forall k :: 0 <= k < m ==> slots[k] == Empty
  {
    seq(m, _ => Empty)
  }

  /** The row of m slots over n items after a run that starts at init(). */
  function Run(m: nat, n: nat, es: seq<Event>): seq<Slot> {
    if es == [] then EmptyRow(m) else Step(Run(m, n, es[..|es| - 1]), n, es[|es| - 1])
  }

  // ---------- what one push does to each slot ----------

  /** Nothing but age or disappearance. */
  ghost predicate Keeps(a: Slot, b: Slot) {
    b.Busy? ==> a.Busy? && b.id == a.id && b.dlc == a.dlc && b.chunks == a.chunks
  }

  ghost predicate Begins(f: Frame, b: Slot) {
    && b.Busy? && b.chunks == [f.data] && b.id.key == f.id.key
    && (|| (f.id.frm == FRM_START && f.dlc == 8 && b.dlc == 0 && b.id.frm == 0)
        || (f.id.frm == FRM_SINGLE && b.dlc == if f.dlc == 0 then ZERO_LENGTH else f.dlc))
  }

  ghost predicate Grows(a: Slot, f: Frame, b: Slot) {
    && a.OpenFor(f.id.key) && b.Busy? && b.id.key == f.id.key && b.chunks == a.chunks + [f.data]
    && (|| (f.id.frm == FRM_END && b.dlc == f.dlc && f.dlc > 0 && b.id == a.id)
        || (f.id.frm <= 4 && f.dlc == 8 && f.id.frm == a.id.frm && b.dlc == 0 && b.id.frm == NextFrm(f.id.frm)))
  }

  /** At most one slot gains data, and what it gains is the frame's eight bytes. */
  lemma PushEffect(slots: seq<Slot>, n: nat, f: Frame) returns (k: nat)
    ensures var r := Push(slots, n, f).0;
            && |r| == |slots|
            && (forall i :: 0 <= i < |slots| && i != k ==> Keeps(slots[i], r[i]))
            && (k < |slots| ==> Begins(f, r[k]) || Grows(slots[k], f, r[k]))
  {
    var r := Push(slots, n, f).0;
    var cleared := RemoveKey(slots, f.id.key);
    k := |slots|;
    if Used(slots) < n || Used(slots) > n {
      if f.id.frm in {FRM_START, FRM_SINGLE} {
        if (f.id.frm == FRM_SINGLE || f.dlc == 8) && FindEmpty(cleared) < |cleared| {
          k := FindEmpty(cleared);
        }
      } else {
        var j := FindOpen(slots, f.id.key);
        var dlc := if f.id.frm == FRM_END then f.dlc else 0;
        if j < |slots| && (f.id.frm == FRM_END ==> f.dlc > 0) && (f.id.frm <= 4 ==> f.dlc == 8)
           && Continue(slots[j], f.id.frm, f.data, dlc).1 in {PacketAvailable, MsgAccepted} {
          k := j;
        }
      }
    }
  }

  // ---------- provenance ----------

  ghost predicate Increasing(idx: seq<nat>) {
    forall p, q :: 0 <= p < q < |idx| ==> idx[p] < idx[q]
  }

  /** Event i of the run is a frame of this key whose data is the p-th chunk of the slot. */
  ghost predicate Supplies(es: seq<Event>, i: nat, s: Slot, p: nat) {
    && i < |es| && es[i].Received? && s.Busy? && p < |s.chunks|
    && es[i].f.id.key == s.id.key && es[i].f.data == s.chunks[p]
  }

  /** Frame p of a transfer that is not its last one: a start frame, then 0, 1, .. 4, 0, .., eight bytes each. */
  predicate Numbered(f: Frame, p: nat) {
    f.id.frm == (if p == 0 then FRM_START else (p - 1) % 5) && f.dlc == 8
  }

  /** idx lists, in order, the events that supplied the chunks of a slot: a start frame, then frames
      numbered 0, 1, .. 4, 0, .. without a gap, all of them with eight bytes, and for a finished packet
      a last end frame whose dlc is the packet's; or one single frame. */
  ghost predicate Traced(es: seq<Event>, s: Slot, idx: seq<nat>) {
    if s.Empty? then idx == []
    else
      && |idx| == |s.chunks| > 0 && Increasing(idx)
      && (forall p :: 0 <= p < |idx| ==> Supplies(es, idx[p], s, p))
      && (s.Open() ==>
            && s.id.frm == (|idx| - 1) % 5
            && forall p :: 0 <= p < |idx| ==> Numbered(es[idx[p]].f, p))
      && (s.Finished() && |idx| == 1 ==>
            && es[idx[0]].f.id.frm == FRM_SINGLE
            && s.dlc == if es[idx[0]].f.dlc == 0 then ZERO_LENGTH else es[idx[0]].f.dlc)
      && (s.Finished() && |idx| > 1 ==>
            && (forall p :: 0 <= p < |idx| - 1 ==> Numbered(es[idx[p]].f, p))
            && es[idx[|idx| - 1]].f.id.frm == FRM_END
            && s.dlc == es[idx[|idx| - 1]].f.dlc)
  }

  /** No frame of the run supplies two slots. */
  ghost predicate Separate(tr: seq<seq<nat>>) {
    forall i, j, p, q :: 0 <= i < j < |tr| && 0 <= p < |tr[i]| && 0 <= q < |tr[j]| ==> tr[i][p] != tr[j][q]
  }

  lemma TraceKept(es: seq<Event>, ev: Event, a: Slot, b: Slot, idx: seq<nat>)
    requires Traced(es, a, idx) && Keeps(a, b)
    ensures Traced(es + [ev], b, if b.Empty? then [] else idx)
  {
    assert forall i :: 0 <= i < |es| ==> (es + [ev])[i] == es[i];
    if b.Busy? {
      forall p | 0 <= p < |idx| ensures Supplies(es + [ev], idx[p], b, p) {
        assert Supplies(es, idx[p], a, p);
      }
    }
  }

  lemma TraceBegun(es: seq<Event>, f: Frame, b: Slot)
    requires Begins(f, b)
    ensures Traced(es + [Received(f)], b, [|es|])
  {
    assert Supplies(es + [Received(f)], |es|, b, 0);
  }

  /** The number expected of frame k, and the one expected behind it. */
  lemma GrownNumber(f: Frame, k: nat)
    requires k > 0
    ensures f.id.frm == (k - 1) % 5 && f.dlc == 8 ==> Numbered(f, k)
    ensures NextFrm((k - 1) % 5) == k % 5
  {
  }

  lemma TraceGrown(es: seq<Event>, f: Frame, a: Slot, b: Slot, idx: seq<nat>)
    requires Traced(es, a, idx) && Grows(a, f, b)
    ensures Traced(es + [Received(f)], b, idx + [|es|])
  {
    hide Numbered, NextFrm;
    var es' := es + [Received(f)];
    var idx' := idx + [|es|];
    assert forall i :: 0 <= i < |es| ==> es'[i] == es[i];
    GrownNumber(f, |idx|);
    forall p | 0 <= p < |idx'| ensures Supplies(es', idx'[p], b, p) {
      if p < |idx| {
        assert Supplies(es, idx[p], a, p);
      }
    }
  }

  /** Safety over every run: each stored packet consists of exactly its own frames, in the order they
      arrived and were numbered, and no frame is used twice. */
  lemma {:induction false} RunTraced(m: nat, n: nat, es: seq<Event>) returns (tr: seq<seq<nat>>)
    ensures var slots := Run(m, n, es);
            && |slots| == |tr| == m
            && (forall k :: 0 <= k < m ==> Traced(es, slots[k], tr[k]))
            && Separate(tr)
    decreases |es|
  {
    if es == [] {
      tr := seq(m, _ => []);
      return;
    }
    var before, ev := es[..|es| - 1], es[|es| - 1];
    assert es == before + [ev];
    var tr0 := RunTraced(m, n, before);
    var slots, r := Run(m, n, before), Run(m, n, es);
    assert r == Step(slots, n, ev);
    match ev {
      case Received(f) =>
        var k := PushEffect(slots, n, f);
        tr := PushTraced(before, slots, r, tr0, f, k);
      case Timer =>
        tr := KeptTraced(before, ev, slots, r, tr0);
      case Read(sz, src) =>
        ReadKeeps(slots, 0, sz, src);
        tr := KeptTraced(before, ev, slots, r, tr0);
    }
  }

  lemma KeptTraced(es: seq<Event>, ev: Event, slots: seq<Slot>, r: seq<Slot>, tr: seq<seq<nat>>)
    returns (tr': seq<seq<nat>>)
    requires |slots| == |r| == |tr| && Separate(tr)
    requires forall k :: 0 <= k < |slots| ==> Traced(es, slots[k], tr[k]) && Keeps(slots[k], r[k])
    ensures |tr'| == |r| && Separate(tr')
    ensures forall k :: 0 <= k < |r| ==> Traced(es + [ev], r[k], tr'[k])
  {
    tr' := seq(|r|, k requires 0 <= k < |r| => if r[k].Empty? then [] else tr[k]);
    forall k | 0 <= k < |r| ensures Traced(es + [ev], r[k], tr'[k]) {
      TraceKept(es, ev, slots[k], r[k], tr[k]);
    }
  }

  lemma PushTraced(es: seq<Event>, slots: seq<Slot>, r: seq<Slot>, tr: seq<seq<nat>>, f: Frame, k: nat)
    returns (tr': seq<seq<nat>>)
    requires |slots| == |r| == |tr| && Separate(tr)
    requires forall i :: 0 <= i < |slots| ==> Traced(es, slots[i], tr[i])
    requires forall i :: 0 <= i < |slots| && i != k ==> Keeps(slots[i], r[i])
    requires k < |slots| ==> Begins(f, r[k]) || Grows(slots[k], f, r[k])
    ensures |tr'| == |r| && Separate(tr')
    ensures forall i :: 0 <= i < |r| ==> Traced(es + [Received(f)], r[i], tr'[i])
  {
    hide Traced, Separate, Begins, Grows, Keeps;
    var grown := if k >= |slots| then [] else if Begins(f, r[k]) then [|es|] else tr[k] + [|es|];
    tr' := seq(|r|, i requires 0 <= i < |r| => if i == k then grown else if r[i].Empty? then [] else tr[i]);
    forall i | 0 <= i < |r| ensures Traced(es + [Received(f)], r[i], tr'[i]) {
      if i != k {
        TraceKept(es, Received(f), slots[i], r[i], tr[i]);
      } else if Begins(f, r[k]) {
        TraceBegun(es, f, r[k]);
      } else {
        TraceGrown(es, f, slots[k], r[k], tr[k]);
      }
    }
    forall i | 0 <= i < |tr| ensures Below(tr[i], |es|) {
      TracedBelow(es, slots[i], tr[i]);
    }
    GrownSeparate(tr, tr', k, |es|);
  }

  ghost predicate Below(idx: seq<nat>, n: nat) {
    forall p :: 0 <= p < |idx| ==> idx[p] < n
  }

  lemma TracedBelow(es: seq<Event>, s: Slot, idx: seq<nat>)
    requires Traced(es, s, idx)
    ensures Below(idx, |es|)
  {
    forall p | 0 <= p < |idx| ensures idx[p] < |es| {
      assert Supplies(es, idx[p], s, p);
    }
  }

  /** An index that is new to all lists may be added to one of them. */
  lemma GrownSeparate(tr: seq<seq<nat>>, tr': seq<seq<nat>>, k: nat, n: nat)
    requires Separate(tr) && |tr'| == |tr| && forall i :: 0 <= i < |tr| ==> Below(tr[i], n)
    requires forall i :: 0 <= i < |tr| && i != k ==> tr'[i] == [] || tr'[i] == tr[i]
    requires k < |tr| ==> tr'[k] == [n] || tr'[k] == tr[k] + [n]
    ensures Separate(tr')
  {
    forall i | 0 <= i < |tr| && i != k ensures Below(tr'[i], n) {
      assert Below(tr[i], n);
    }
  }

  lemma {:induction false} ReadKeeps(slots: seq<Slot>, k: nat, sz: nat, src: Src)
    ensures var r := ReadFrom(slots, k, sz, src).slots;
            |r| == |slots| && forall i :: 0 <= i < |slots| ==> r[i] == slots[i] || r[i] == Empty
    decreases |slots| - k
  {
    if k < |slots| {
      if !slots[k].Finished() {
        ReadKeeps(slots, k + 1, sz, src);
      } else {
        ReadKeeps(slots[k := Empty], k + 1, sz, slots[k].id.key.src);
      }
    }
  }

  // ---------- the invariant of every run ----------

  lemma StepConsistent(slots: seq<Slot>, n: nat, ev: Event)
    requires Consistent(slots)
    ensures Consistent(Step(slots, n, ev))
  {
    match ev {
      case Received(f) => PushRefines(slots, n, f);
      case Timer => AgeRefines(slots);
      case Read(sz, src) =>
        ReadKeeps(slots, 0, sz, src);
        FewerConsistent(slots, Step(slots, n, ev));
    }
  }

  /** In every reachable row at most one unfinished packet exists per key, it expects a frame in 0..4,
      and the chunks of all slots fit the n items. */
  lemma {:induction false} RunConsistent(m: nat, n: nat, es: seq<Event>)
    ensures Consistent(Run(m, n, es)) && Used(Run(m, n, es)) <= n
    decreases |es|
  {
    if es == [] {
      UsedOfEmpty(EmptyRow(m));
    } else {
      var before := Run(m, n, es[..|es| - 1]);
      RunConsistent(m, n, es[..|es| - 1]);
      StepConsistent(before, n, es[|es| - 1]);
      StepUsed(before, n, es[|es| - 1]);
    }
  }

  lemma {:induction false} UsedOfEmpty(slots: seq<Slot>)
    requires forall k :: 0 <= k < |slots| ==> slots[k].Empty?
    ensures Used(slots) == 0
  {
    if slots != [] {
      UsedOfEmpty(slots[1..]);
    }
  }

  lemma {:induction false} UsedLess(a: seq<Slot>, b: seq<Slot>)
    requires |a| == |b| && forall k :: 0 <= k < |a| ==> Keeps(a[k], b[k])
    ensures Used(b) <= Used(a)
  {
    if a != [] {
      assert Keeps(a[0], b[0]);
      UsedLess(a[1..], b[1..]);
    }
  }

  lemma {:induction false} UsedGrows(a: seq<Slot>, b: seq<Slot>, f: Frame, k: nat)
    requires |a| == |b| && forall i :: 0 <= i < |a| && i != k ==> Keeps(a[i], b[i])
    requires k < |a| ==> Begins(f, b[k]) || Grows(a[k], f, b[k])
    ensures Used(b) <= Used(a) + 1
  {
    if a != [] {
      if k == 0 {
        UsedLess(a[1..], b[1..]);
      } else {
        assert Keeps(a[0], b[0]);
        UsedGrows(a[1..], b[1..], f, k - 1);
      }
    }
  }

  lemma PushUsed(slots: seq<Slot>, n: nat, f: Frame)
    requires Used(slots) <= n
    ensures Used(Push(slots, n, f).0) <= n && Used(Push(slots, n, f).0) <= Used(slots) + 1
  {
    if Used(slots) == n {
      UsedLess(slots, Push(slots, n, f).0);
    } else {
      var k := PushEffect(slots, n, f);
      UsedGrows(slots, Push(slots, n, f).0, f, k);
    }
  }

  lemma StepUsed(slots: seq<Slot>, n: nat, ev: Event)
    requires Used(slots) <= n
    ensures Used(Step(slots, n, ev)) <= n
  {
    match ev {
      case Received(f) => PushUsed(slots, n, f);
      case Timer => UsedLess(slots, Timeout(slots));
      case Read(sz, src) =>
        ReadKeeps(slots, 0, sz, src);
        UsedLess(slots, Step(slots, n, ev));
    }
  }

  // ---------- runs on the map and the bag alone ----------

  /** One event of the closed protocol with m slots and n items. Which finished packet a read takes is
      left open; a destination too small for an identifier may lose packets. */
  ghost predicate StoreStep(st: Store, ev: Event, m: nat, n: nat, st': Store) {
    match ev
    case Received(f) => st' == Accept(st, m, n, f).0
    case Timer => st' == st.(open := Aged(st.open))
    case Read(sz, _) =>
      && st'.open == st.open && st'.done <= st.done
      && (sz >= 2 ==> |st'.done| == if st.done == multiset{} then 0 else |st.done| - 1)
      && (sz < 2 ==> st'.done == multiset{} || exists p :: p in st.done - st'.done && Leaks(p, sz))
  }

  ghost predicate StoreRun(m: nat, n: nat, es: seq<Event>, sts: seq<Store>) {
    && |sts| == |es| + 1 && sts[0] == Store(map[], multiset{})
    && forall i :: 0 <= i < |es| ==> StoreStep(sts[i], es[i], m, n, sts[i + 1])
  }

  lemma StepOnStore(slots: seq<Slot>, n: nat, ev: Event)
    requires Consistent(slots)
    ensures Consistent(Step(slots, n, ev)) && |Step(slots, n, ev)| == |slots|
    ensures StoreStep(Abstract(slots), ev, |slots|, n, Abstract(Step(slots, n, ev)))
  {
    hide OpenMap, DoneBag, Consistent, Push, Accept, ReadFrom;
    match ev {
      case Received(f) =>
        PushIsAccept(slots, n, f);
        var k := PushEffect(slots, n, f);
      case Timer => AgeRefines(slots);
      case Read(sz, src) =>
        ReadKeeps(slots, 0, sz, src);
        if sz >= 2 {
          ReadRefines(slots, 0, sz, src);
        } else {
          var lost, p := ShortReadRefines(slots, 0, sz, src);
          if ReadFrom(slots, 0, sz, src).out != [] {
            TakenOut(DoneBag(slots), DoneBag(ReadFrom(slots, 0, sz, src).slots), lost, p);
          } else {
            assert DoneBag(ReadFrom(slots, 0, sz, src).slots) == multiset{};
          }
        }
    }
  }

  lemma TakenOut<T>(all: multiset<T>, rest: multiset<T>, lost: multiset<T>, p: T)
    requires all == rest + lost + multiset{p}
    ensures rest <= all && p in all - rest
  {
  }

  /** Every run of the pool from init() is a run of the closed protocol. */
  lemma {:induction false} RunRefines(m: nat, n: nat, es: seq<Event>) returns (sts: seq<Store>)
    ensures StoreRun(m, n, es, sts) && |Run(m, n, es)| == m && Consistent(Run(m, n, es))
    ensures sts[|es|] == Abstract(Run(m, n, es))
    decreases |es|
  {
    hide StoreStep;
    if es == [] {
      NothingAtFirst(m);
      sts := [Store(map[], multiset{})];
    } else {
      var front := es[..|es| - 1];
      var before := RunRefines(m, n, front);
      StepOnStore(Run(m, n, front), n, es[|es| - 1]);
      sts := before + [Abstract(Run(m, n, es))];
      forall i | 0 <= i < |es| ensures StoreStep(sts[i], es[i], m, n, sts[i + 1]) {
        if i < |front| {
          assert StoreStep(before[i], front[i], m, n, before[i + 1]);
        }
      }
    }
  }

  lemma NothingAtFirst(m: nat)
    ensures Consistent(EmptyRow(m)) && Abstract(EmptyRow(m)) == Store(map[], multiset{})
  {
    var slots := EmptyRow(m);
    NoneFinished(slots);
    assert OpenMap(slots) == map[];
  }

  // ---------- wrong lengths ----------

  /** Every frame of a transfer but the last carries eight bytes, and an end frame at least one. */
  predicate WrongLength(f: Frame) {
    if f.id.frm == FRM_SINGLE then false else if f.id.frm == FRM_END then f.dlc == 0 else f.dlc != 8
  }

  /** Such frames, and only such, are refused for their length while an item is free, and change nothing. */
  lemma WrongLengthRefused(slots: seq<Slot>, n: nat, f: Frame)
    requires Used(slots) < n
    ensures Push(slots, n, f).1 == ErrorDLC <==> WrongLength(f)
    ensures WrongLength(f) ==> Push(slots, n, f).0 == slots
  {
    hide RemoveKey, Timeout, FindOpen, FindEmpty, Used;
  }

  // ---------- repetition ----------

  lemma RepeatedStart(slots: seq<Slot>, id: ExtId, data: Chunk)
    requires PushNew(slots, id, data, 0).1 == MsgAccepted
    ensures var r := PushNew(slots, id, data, 0).0;
            PushNew(r, id, data, 0) == (r, MsgAccepted) && FindOpen(r, id.key) < |r|
  {
    var cleared := RemoveKey(slots, id.key);
    var k := FindEmpty(cleared);
    var r := PushNew(slots, id, data, 0).0;
    assert r[k].OpenFor(id.key);
    assert RemoveKey(r, id.key) == cleared;
  }

  lemma RepeatedSequence(slots: seq<Slot>, id: ExtId, data: Chunk)
    requires PushNext(slots, id, data, 0).1 == MsgAccepted && id.frm <= FRM_SEQ_MAX
    ensures var r := PushNext(slots, id, data, 0).0;
            PushNext(r, id, data, 0) == (r, MsgDropped) && FindOpen(r, id.key) < |r|
  {
    var k := FindOpen(slots, id.key);
    var r := PushNext(slots, id, data, 0).0;
    assert r[k].OpenFor(id.key);
    assert FindOpen(r, id.key) == k;
    assert r[k := r[k]] == r;
  }

  /** A start or sequence frame that was accepted and comes again changes nothing at all, exactly when
      an item is still free; with the item pool used up the repetition destroys the packet. */
  lemma RepeatedFrame(slots: seq<Slot>, n: nat, f: Frame)
    requires Consistent(slots) && Used(slots) <= n
    requires Push(slots, n, f).1 == MsgAccepted
    ensures var r := Push(slots, n, f).0;
            && Used(r) <= n
            && (Push(r, n, f).0 == r <==> Used(r) < n)
            && (Used(r) == n ==> FindOpen(Push(r, n, f).0, f.id.key) == |r|)
  {
    hide PushNew, PushNext, RemoveKey, Timeout, FindOpen, Consistent;
    var r := Push(slots, n, f).0;
    PushUsed(slots, n, f);
    if f.id.frm == FRM_START {
      RepeatedStart(slots, f.id, f.data);
    } else if f.id.frm == FRM_SINGLE || f.id.frm == FRM_END {
      NotMerelyAccepted(slots, f.id, f.data, if f.dlc > 0 then f.dlc else ZERO_LENGTH);
    } else {
      RepeatedSequence(slots, f.id, f.data);
    }
  }

  lemma NotMerelyAccepted(slots: seq<Slot>, id: ExtId, data: Chunk, dlc: Byte)
    requires dlc > 0
    ensures PushNew(slots, id, data, dlc).1 != MsgAccepted
    ensures PushNext(slots, id, data, dlc).1 != MsgAccepted
  {
  }

  /** A start frame and the sequence frames that follow it, n frames in all. */
  function Filling(n: nat, key: Key, data: Chunk): (es: seq<Event>)
    ensures |es| == n
    ensures forall i :: 0 <= i < n ==>
              es[i] == Received(Frame(ExtId(key, if i == 0 then FRM_START else (i - 1) % 5), 8, data))
  {
    seq(n, i requires 0 <= i < n =>
      Received(Frame(ExtId(key, if i == 0 then FRM_START else (i - 1) % 5), 8, data)))
  }

  function Filled(i: nat, key: Key, data: Chunk): Store {
    if i == 0 then Store(map[], multiset{})
    else Store(map[key := Entry(seq(i, _ => data), (i - 1) % 5, TIMEOUT)], multiset{})
  }

  lemma {:induction false} FillingRun(m: nat, n: nat, key: Key, data: Chunk, i: nat)
    requires 0 < m && i <= n
    ensures var r := Run(m, n, Filling(n, key, data)[..i]);
            Consistent(r) && |r| == m && Used(r) == i && Abstract(r) == Filled(i, key, data)
    decreases i
  {
    hide OpenMap, DoneBag, Consistent, Used, Push, Receive, StoreStep, SlotsExhausted;
    var es := Filling(n, key, data);
    var sts := RunRefines(m, n, es[..i]);
    var r := Run(m, n, es[..i]);
    if i == 0 {
      NothingAtFirst(m);
    } else {
      FillingRun(m, n, key, data, i - 1);
      assert es[..i][..i - 1] == es[..i - 1];
      FillingStep(Run(m, n, es[..i - 1]), n, key, data, i - 1, es[i - 1].f);
    }
    HeldFilled(i, key, data);
    UsedIsHeld(r);
  }

  lemma FillingStep(slots: seq<Slot>, n: nat, key: Key, data: Chunk, i: nat, f: Frame)
    requires Consistent(slots) && slots != [] && Used(slots) == i < n && Abstract(slots) == Filled(i, key, data)
    requires f == Frame(ExtId(key, if i == 0 then FRM_START else (i - 1) % 5), 8, data)
    ensures var (r, rv) := Push(slots, n, f);
            Consistent(r) && Abstract(r) == Filled(i + 1, key, data) && rv == MsgAccepted
  {
    hide OpenMap, DoneBag, Consistent, Push, SlotsExhausted, Receive, Filled, Used;
    PushRefines(slots, n, f);
    ExhaustedMeaning(slots, key);
    FilledKey(i, key, data);
    FilledReceives(i, key, data, f);
  }

  lemma FilledKey(i: nat, key: Key, data: Chunk)
    ensures var st := Filled(i, key, data); |st.open - {key}| + |st.done| == 0
  {
    assert Filled(i, key, data).open - {key} == map[];
  }

  lemma FilledReceives(i: nat, key: Key, data: Chunk, f: Frame)
    requires f == Frame(ExtId(key, if i == 0 then FRM_START else (i - 1) % 5), 8, data)
    ensures Receive(Filled(i, key, data), f, false, false) == (Filled(i + 1, key, data), MsgAccepted)
  {
    var st := Filled(i, key, data);
    var before, after := seq(i, _ => data), seq(i + 1, _ => data);
    assert before + [data] == after;
    if i == 0 {
      assert [data] == after;
      assert st.open[key := Entry(after, 0, TIMEOUT)] == map[key := Entry(after, 0, TIMEOUT)];
    } else {
      assert st.open[key := Entry(after, i % 5, TIMEOUT)] == map[key := Entry(after, i % 5, TIMEOUT)];
      assert ((i - 1) % 5 + 1) % 5 == i % 5;
    }
  }

  lemma HeldFilled(i: nat, key: Key, data: Chunk)
    ensures Held(Filled(i, key, data)) == i
  {
    var st := Filled(i, key, data);
    if i > 0 {
      OpenTake(st.open, key);
      assert st.open - {key} == map[];
    }
  }

  /** The run that shows it, for every pool: a transfer of as many frames as there are items. Each frame
      was accepted, and the repetition of the last one destroys the packet. */
  lemma RepetitionDestroys(m: nat, n: nat, key: Key, data: Chunk)
    requires 0 < m && 0 < n
    ensures var es := Filling(n, key, data);
            var before, r := Run(m, n, es[..n - 1]), Run(m, n, es);
            && Push(before, n, es[n - 1].f) == (r, MsgAccepted)
            && Consistent(r) && Used(r) == n && key in OpenMap(r)
            && Push(r, n, es[n - 1].f).1 == ErrorSlotsOverflow
            && Consistent(Push(r, n, es[n - 1].f).0) && key !in OpenMap(Push(r, n, es[n - 1].f).0)
  {
    hide OpenMap, DoneBag, Consistent, Used, Push, SlotsExhausted;
    var es := Filling(n, key, data);
    assert es[..n] == es;
    FillingRun(m, n, key, data, n - 1);
    FillingRun(m, n, key, data, n);
    FillingStep(Run(m, n, es[..n - 1]), n, key, data, n - 1, es[n - 1].f);
    PushRefines(Run(m, n, es), n, es[n - 1].f);
  }

  /** An end frame that completed a packet and comes again only ages the other transfers: no second
      packet appears. */
  lemma RepeatedEnd(slots: seq<Slot>, n: nat, f: Frame)
    requires Consistent(slots) && Used(slots) <= n
    requires f.id.frm == FRM_END && Push(slots, n, f).1 == PacketAvailable
    ensures var r := Push(slots, n, f).0;
            && Push(r, n, f).0 == Timeout(r)
            && Consistent(r) && DoneBag(Push(r, n, f).0) == DoneBag(r)
  {
    hide OpenMap, DoneBag, Consistent, RemoveKey, Timeout, FindOpen;
    var r := Push(slots, n, f).0;
    PushUsed(slots, n, f);
    PushRefines(slots, n, f);
    AgeRefines(r);
    FindIsLookup(r, f.id.key);
  }

  // ---------- loss ----------

  ghost predicate Restarts(ev: Event, key: Key) {
    ev.Received? && ev.f.id.key == key && ev.f.id.frm in {FRM_START, FRM_SINGLE}
  }

  ghost predicate NoNewPacket(before: seq<Slot>, after: seq<Slot>, key: Key) {
    forall p: Packet :: p.key == key ==> DoneBag(after)[p] <= DoneBag(before)[p]
  }

  function RunFrom(slots: seq<Slot>, n: nat, es: seq<Event>): seq<Slot>
    decreases |es|
  {
    if es == [] then slots else RunFrom(Step(slots, n, es[0]), n, es[1..])
  }

  lemma {:induction false} ReadTakes(slots: seq<Slot>, k: nat, sz: nat, src: Src)
    requires Consistent(slots)
    ensures var r := ReadFrom(slots, k, sz, src).slots;
            Consistent(r) && OpenMap(r) == OpenMap(slots) && DoneBag(r) <= DoneBag(slots)
    decreases |slots| - k
  {
    if k < |slots| {
      if !slots[k].Finished() {
        ReadTakes(slots, k + 1, sz, src);
      } else {
        TakeRefines(slots, k);
        ReadTakes(slots[k := Empty], k + 1, sz, slots[k].id.key.src);
      }
    }
  }

  lemma QuietStep(slots: seq<Slot>, n: nat, ev: Event, key: Key)
    requires Consistent(slots) && key !in OpenMap(slots) && !Restarts(ev, key)
    ensures var r := Step(slots, n, ev);
            Consistent(r) && key !in OpenMap(r) && NoNewPacket(slots, r, key)
  {
    hide OpenMap, DoneBag, Push, Consistent;
    match ev {
      case Received(f) => PushRefines(slots, n, f);
      case Timer => AgeRefines(slots);
      case Read(sz, src) => ReadTakes(slots, 0, sz, src);
    }
  }

  /** Without an unfinished packet, no run of events free of start and single frames of the key
      completes a packet of that key. */
  lemma {:induction false} NothingWithoutStart(slots: seq<Slot>, n: nat, es: seq<Event>, key: Key)
    requires Consistent(slots) && key !in OpenMap(slots)
    requires forall i :: 0 <= i < |es| ==> !Restarts(es[i], key)
    ensures var r := RunFrom(slots, n, es);
            Consistent(r) && key !in OpenMap(r) && NoNewPacket(slots, r, key)
    decreases |es|
  {
    if es != [] {
      QuietStep(slots, n, es[0], key);
      NothingWithoutStart(Step(slots, n, es[0]), n, es[1..], key);
    }
  }

  /** The expected frame x is lost together with the following j - 1, and frame x + j arrives. The
      transfer survives exactly when j mod 5 is 0 (the gap goes unnoticed) or 4 (taken for a
      repetition); otherwise nothing but a new start frame can complete a packet of this key. */
  lemma LostFrames(slots: seq<Slot>, n: nat, f: Frame, j: nat, rest: seq<Event>)
    requires Consistent(slots) && Used(slots) < n
    requires f.id.key in OpenMap(slots) && f.dlc == 8
    requires f.id.frm == (OpenMap(slots)[f.id.key].frm + j) % 5
    requires forall i :: 0 <= i < |rest| ==> !Restarts(rest[i], f.id.key)
    ensures var r := Push(slots, n, f).0;
            && Consistent(r)
            && (f.id.key in OpenMap(r) <==> j % 5 in {0, 4})
            && (j % 5 in {1, 2, 3} ==> NoNewPacket(slots, RunFrom(r, n, rest), f.id.key))
  {
    hide DoneBag, OpenMap, Push, NoNewPacket;
    var r := Push(slots, n, f).0;
    OpenFrm(slots, f.id.key);
    PushRefines(slots, n, f);
    if j % 5 in {1, 2, 3} {
      assert Abstract(r) == Lose(Abstract(slots), f.id.key);
      NothingWithoutStart(r, n, rest, f.id.key);
      SameBag(slots, r, RunFrom(r, n, rest), f.id.key);
    }
  }

  lemma OpenFrm(slots: seq<Slot>, key: Key)
    requires Consistent(slots) && key in OpenMap(slots)
    ensures OpenMap(slots)[key].frm <= 4
  {
    var i := OpenWitness(slots, key);
    assert slots[i].id.frm <= FRM_SEQ_MAX;
  }

  lemma SameBag(a: seq<Slot>, b: seq<Slot>, c: seq<Slot>, key: Key)
    requires DoneBag(a) == DoneBag(b) && NoNewPacket(b, c, key)
    ensures NoNewPacket(a, c, key)
  {
  }
}
