/** The reassembly pool: packet chains and a free list threaded through one item array.
    Every method is proved against the slot functions of CanFormat. */
module CanPool {
  import opened Bytes
  import opened CanFormat
  import opened CanLists

  datatype Tree = Tree(id: ExtId, head: Byte, dlc: Byte, to: Byte)

  ghost function HeadsOf(trees: seq<Tree>, free: Byte): (heads: seq<Byte>)
    ensures |heads| == |trees| + 1 && heads[|trees|] == free
    ensures forall k :: 0 <= k < |trees| ==> heads[k] == trees[k].head
  {
    seq(|trees|, k requires 0 <= k < |trees| => trees[k].head) + [free]
  }

  /** A tree and its chain of items hold what the slot says. */
  ghost predicate Holds(items: seq<Item>, t: Tree, s: seq<nat>, slot: Slot) {
    && (slot.Empty? <==> s == [])
    && (slot.Busy? ==>
          && t.id == slot.id && t.dlc == slot.dlc && t.to == slot.to && |slot.chunks| == |s|
          && forall p :: 0 <= p < |s| ==> s[p] < |items| && items[s[p]].data == slot.chunks[p])
  }

  /** Every tree but `except` holds what its slot says. */
  ghost predicate AllHold(items: seq<Item>, trees: seq<Tree>, lists: seq<seq<nat>>, slots: seq<Slot>, except: nat) {
    && |lists| == |trees| + 1 && |slots| == |trees|
    && forall j :: 0 <= j < |trees| && j != except ==> Holds(items, trees[j], lists[j], slots[j])
  }

  lemma OneHolds(items: seq<Item>, trees: seq<Tree>, lists: seq<seq<nat>>, slots: seq<Slot>, k: nat)
    requires AllHold(items, trees, lists, slots, |trees|) && k < |trees|
    ensures |lists| == |trees| + 1 && |slots| == |trees| && Holds(items, trees[k], lists[k], slots[k])
  {
  }

  /** Contents survive a change that spares the other trees and every item's data but item x's. */
  lemma HoldKept(items: seq<Item>, trees: seq<Tree>, lists: seq<seq<nat>>, slots: seq<Slot>,
                 items': seq<Item>, trees': seq<Tree>, lists': seq<seq<nat>>, slots': seq<Slot>,
                 k: nat, x: nat)
    requires AllHold(items, trees, lists, slots, k)
    requires |items'| == |items| && |trees'| == |trees| && |lists'| == |lists| && |slots'| == |slots|
    requires forall j :: 0 <= j < |trees| && j != k ==> lists'[j] == lists[j]
    requires forall j :: 0 <= j < |trees| && j != k ==> slots'[j] == slots[j]
    requires forall j :: 0 <= j < |trees| && j != k ==> trees'[j] == trees[j]
    requires forall i :: 0 <= i < |items| && i != x ==> items'[i].data == items[i].data
    requires forall j, p :: 0 <= j < |trees| && j != k && 0 <= p < |lists[j]| ==> lists[j][p] != x
    ensures AllHold(items', trees', lists', slots', k)
  {
    forall j | 0 <= j < |trees| && j != k ensures Holds(items', trees'[j], lists'[j], slots'[j]) {
      assert Holds(items, trees[j], lists[j], slots[j]);
    }
  }

  /** Contents after a free item filled with data has become the tail of tree k's chain. */
  lemma AppendHolds(items: seq<Item>, heads: seq<Byte>, lists: seq<seq<nat>>, own: seq<nat>,
                    trees: seq<Tree>, slots: seq<Slot>, k: nat, t: Tree, slot: Slot, data: Chunk)
    requires Shared(items, heads, lists, own) && AllHold(items, trees, lists, slots, |trees|)
    requires k < |trees| && lists[|trees|] != [] && lists[|trees|][0] < |items| && lists[|trees|][0] < NIL
    requires forall p :: 0 <= p < |lists[k]| ==> lists[k][p] < |items|
    requires slot.Busy? && t.id == slot.id && t.dlc == slot.dlc && t.to == slot.to
    requires slot.chunks == (if slots[k].Empty? then [] else slots[k].chunks) + [data]
    ensures AllHold(Appended(items, lists, |trees|, k, data), trees[k := t],
                    Moved(lists, |trees|, k, false), slots[k := slot], |trees|)
  {
    var m := |trees|;
    var x := lists[m][0];
    var items' := Appended(items, lists, m, k, data);
    var lists' := Moved(lists, m, k, false);
    assert Holds(items, trees[k], lists[k], slots[k]);
    MovedLists(lists, m, k, false);
    assert lists'[k] == lists[k] + [x];
    AppendedData(items, lists, m, k, data);
    forall j | 0 <= j < m ensures x !in lists[j] {
      Apart(lists, own, j, m);
    }
    hide Shared, Appended, Moved;
    HoldKept(items, trees, lists, slots, items', trees[k := t], lists', slots[k := slot], k, x);
    assert Holds(items', t, lists[k] + [x], slot);
  }

  lemma {:induction false} UsedIsTotal(slots: seq<Slot>, lists: seq<seq<nat>>)
    requires |lists| == |slots| + 1
    requires forall k :: 0 <= k < |slots| ==> slots[k].Size() == |lists[k]|
    ensures Total(lists) == Used(slots) + |lists[|slots|]|
  {
    if slots == [] {
      assert Total(lists[1..]) == 0;
    } else {
      UsedIsTotal(slots[1..], lists[1..]);
    }
  }

  ghost function InitialLists(m: nat, n: nat): (lists: seq<seq<nat>>)
    ensures |lists| == m + 1 && |lists[m]| == n
    ensures forall k :: 0 <= k < m ==> lists[k] == []
    ensures forall i :: 0 <= i < n ==> lists[m][i] == i
  {
    seq(m, _ => []) + [seq(n, i => i)]
  }

  lemma {:induction false} InitialTotal(lists: seq<seq<nat>>)
    requires lists != [] && forall k :: 0 <= k < |lists| - 1 ==> lists[k] == []
    ensures Total(lists) == |lists[|lists| - 1]|
  {
    if |lists| > 1 {
      InitialTotal(lists[1..]);
    } else {
      assert Total(lists[1..]) == 0;
    }
  }

  lemma InitialPartition(m: nat, n: nat)
    ensures Partition(InitialLists(m, n), seq(n, _ => m))
  {
    var lists, own := InitialLists(m, n), seq(n, _ => m);
    forall i | 0 <= i < |own| ensures Covered(lists, own, i) {
      assert lists[m][i] == i;
    }
  }

  lemma InitialShared(items: seq<Item>, heads: seq<Byte>, m: nat)
    requires 0 < |items| <= NIL as nat && |heads| == m + 1 && heads[m] == 0
    requires forall k :: 0 <= k < m ==> heads[k] == NIL
    requires forall i :: 0 <= i < |items| ==> items[i].next == if i + 1 < |items| then i + 1 else NIL
    ensures Shared(items, heads, InitialLists(m, |items|), seq(|items|, _ => m))
  {
    var lists := InitialLists(m, |items|);
    InitialTotal(lists);
    InitialPartition(m, |items|);
    hide Partition;
    forall k | 0 <= k < |lists| ensures Chain(items, heads[k], lists[k]) {
    }
  }

  class Pool {
    const trees: array<Tree>
    const items: array<Item>
    var free: Byte

    /** lists[k] is the chain of tree k; the last list is the free list. */
    ghost var lists: seq<seq<nat>>
    ghost var own: seq<nat>
    ghost var slots: seq<Slot>

    ghost predicate Linked()
      reads this, trees, items
    {
      && |lists| == trees.Length + 1
      && items.Length <= NIL
      && Shared(items[..], HeadsOf(trees[..], free), lists, own)
    }

    ghost predicate Valid()
      reads this, trees, items
    {
      Linked() && AllHold(items[..], trees[..], lists, slots, trees.Length)
    }

    lemma FreeCount()
      requires Valid()
      ensures |lists[trees.Length]| + Used(slots) == items.Length
      ensures free == NIL <==> Used(slots) == items.Length
    {
      assert Chain(items[..], HeadsOf(trees[..], free)[trees.Length], lists[trees.Length]);
      forall k | 0 <= k < trees.Length ensures slots[k].Size() == |lists[k]| {
        assert Holds(items[..], trees[k], lists[k], slots[k]);
      }
      UsedIsTotal(slots, lists);
    }

    lemma Inspect(k: nat)
      requires Valid() && k < trees.Length
      ensures |slots| == trees.Length
      ensures trees[k].head == NIL <==> slots[k].Empty?
      ensures slots[k].Busy? ==>
                trees[k].id == slots[k].id && trees[k].dlc == slots[k].dlc && trees[k].to == slots[k].to
    {
      assert Holds(items[..], trees[k], lists[k], slots[k]);
      assert Chain(items[..], HeadsOf(trees[..], free)[k], lists[k]);
    }

    lemma SlotCount()
      requires Valid()
      ensures |slots| == trees.Length
    {
    }

    /** The storage only: an object that has not been initialised promises nothing. */
    constructor (sizeItems: nat, sizeTrees: nat)
      requires 0 < sizeItems <= NIL as nat
      ensures items.Length == sizeItems && trees.Length == sizeTrees
      ensures fresh(items) && fresh(trees)
    {
      items := new Item[sizeItems];
      trees := new Tree[sizeTrees];
      free := 0;
    }

    method Init()
      requires 0 < items.Length <= NIL as nat
      modifies this, trees, items
      ensures Valid() && Used(slots) == 0
      ensures forall k :: 0 <= k < |slots| ==> slots[k] == Empty
    {
      for k := 0 to trees.Length
        invariant forall j :: 0 <= j < k ==> trees[j].head == NIL
      {
        trees[k] := Tree(ExtId(Key(0, 0, 0), 0), NIL, 0, 0);
      }
      var n := items.Length;
      for i := 0 to n
        invariant forall k :: 0 <= k < trees.Length ==> trees[k].head == NIL
        invariant forall j :: 0 <= j < i ==> items[j].next == j + 1
      {
        items[i] := Item(i + 1, [0, 0, 0, 0, 0, 0, 0, 0]);
      }
      items[n - 1] := items[n - 1].(next := NIL);
      free := 0;

      slots := seq(trees.Length, _ => Empty);
      lists := InitialLists(trees.Length, n);
      own := seq(n, _ => trees.Length);
      InitialShared(items[..], HeadsOf(trees[..], free), trees.Length);
      FreeCount();
    }

    /** Counts the free list by walking it. */
    method Space() returns (cnt: nat)
      requires Valid()
      ensures cnt == items.Length - Used(slots)
    {
      FreeCount();
      ghost var m := trees.Length;
      assert Chain(items[..], HeadsOf(trees[..], free)[m], lists[m]);
      cnt := 0;
      var i := free;
      while i != NIL
        invariant cnt <= |lists[m]|
        invariant i as nat == if cnt < |lists[m]| then lists[m][cnt] else NIL
        decreases |lists[m]| - cnt
      {
        assert items[lists[m][cnt]].next == LinkAfter(lists[m], cnt);
        cnt := cnt + 1;
        i := items[i].next;
      }
    }

    /** One item of tree k goes back to the free list. */
    method ReleaseHead(k: nat)
      requires Linked() && k < trees.Length && trees[k].head != NIL
      modifies this`free, this`lists, this`own, trees, items
      ensures Linked()
      ensures old(lists)[k] != [] && lists == Moved(old(lists), k, trees.Length, true)
      ensures trees[..] == old(trees[..])[k := old(trees[k]).(head := trees[k].head)]
      ensures forall i :: 0 <= i < items.Length ==> items[i].data == old(items[i].data)
    {
      hide Shared, Moved, Covered, Distinct;
      ghost var m := trees.Length;
      ghost var heads: seq<Byte> := HeadsOf(trees[..], free);
      ghost var items0, lists0 := items[..], lists;
      FirstItem(k);
      Release(items0, heads, lists, own, k, m);
      OwnedItems(items0, heads, lists, own);
      MovedLists(lists, k, m, true);
      var idx := trees[k].head;
      var next := items[idx].next;
      trees[k] := trees[k].(head := next);
      items[idx] := items[idx].(next := free);
      lists, own := Moved(lists, k, m, true), own[idx := m];
      assert items[..] == items0[idx := items0[idx].(next := free)];
      free := idx;
      assert HeadsOf(trees[..], free) == heads[k := next][m := idx];
    }

    static lemma ListsApart(items: seq<Item>, heads: seq<Byte>, lists: seq<seq<nat>>, own: seq<nat>, j: nat, k: nat)
      requires Shared(items, heads, lists, own) && j < |lists| && k < |lists| && j != k
      ensures forall p, q :: 0 <= p < |lists[j]| && 0 <= q < |lists[k]| ==> lists[j][p] != lists[k][q]
    {
      Apart(lists, own, j, k);
    }

    static lemma OwnedItems(items: seq<Item>, heads: seq<Byte>, lists: seq<seq<nat>>, own: seq<nat>)
      requires Shared(items, heads, lists, own)
      ensures |own| == |items|
    {
    }

    lemma FirstItem(k: nat)
      requires Linked() && k < trees.Length && trees[k].head != NIL
      ensures lists[k] != [] && trees[k].head as int == lists[k][0] < items.Length
    {
      assert Chain(items[..], HeadsOf(trees[..], free)[k], lists[k]);
    }

    lemma NilHeadIsEmpty(k: nat)
      requires Linked() && k < trees.Length && trees[k].head == NIL
      ensures lists[k] == []
    {
      assert Chain(items[..], HeadsOf(trees[..], free)[k], lists[k]);
    }

    /** Gives every item of tree k back to the free list. */
    method RemoveTree(k: nat)
      requires Valid() && k < trees.Length
      modifies this, trees, items
      ensures Valid()
      ensures slots == old(slots)[k := Empty]
    {
      hide Shared;
      while trees[k].head != NIL
        invariant Linked() && slots == old(slots)
        invariant AllHold(items[..], trees[..], lists, slots, k)
        decreases |lists[k]|
      {
        ghost var items0, trees0, lists0 := items[..], trees[..], lists;
        ReleaseHead(k);
        MovedLists(lists0, k, trees.Length, true);
        HoldKept(items0, trees0, lists0, slots, items[..], trees[..], lists, slots, k, items.Length);
      }
      NilHeadIsEmpty(k);
      slots := slots[k := Empty];
      assert Holds(items[..], trees[k], lists[k], slots[k]);
    }

    /** Drops every unfinished packet of the identifier's key. */
    method Remove(id: ExtId)
      requires Valid()
      modifies this, trees, items
      ensures Valid()
      ensures slots == RemoveKey(old(slots), id.key)
    {
      ghost var was := slots;
      SlotCount();
      RemoveKeyEnds(was, id.key);
      hide Valid, RemoveKeyUpTo;
      for k := 0 to trees.Length
        invariant Valid() && |slots| == trees.Length
        invariant slots == RemoveKeyUpTo(was, id.key, k)
      {
        Inspect(k);
        RemoveKeyStep(was, id.key, k);
        if trees[k].head == NIL {
          continue;
        }
        if trees[k].dlc != 0 {
          continue;
        }
        if trees[k].id.key != id.key {
          continue;
        }
        RemoveTree(k);
      }
    }

    /** Writes the timeout field of a tree. */
    method SetTimeout(k: nat, to: Byte)
      requires Valid() && k < trees.Length && slots[k].Busy?
      modifies this`slots, trees
      ensures Valid()
      ensures slots == old(slots)[k := old(slots)[k].(to := to)]
    {
      ghost var heads: seq<Byte> := HeadsOf(trees[..], free);
      ghost var trees0, slots0 := trees[..], slots;
      trees[k] := trees[k].(to := to);
      slots := slots[k := slots[k].(to := to)];
      assert HeadsOf(trees[..], free) == heads;
      assert Holds(items[..], trees0[k], lists[k], slots0[k]);
      HoldKept(items[..], trees0, lists, slots0, items[..], trees[..], lists, slots, k, items.Length);
    }

    /** One step of the loop in timeout(). */
    method AgeTree(k: nat) returns (expired: bool)
      requires Valid() && k < trees.Length
      modifies this, trees, items
      ensures Valid()
      ensures slots == old(slots)[k := Tick(old(slots)[k])]
      ensures expired <==> Expires(old(slots)[k])
    {
      Inspect(k);
      hide Valid;
      expired := false;
      if trees[k].head != NIL && trees[k].dlc == 0 {
        if trees[k].to == 0 {
          RemoveTree(k);
          expired := true;
        } else {
          SetTimeout(k, trees[k].to - 1);
        }
      }
    }

    /** Ages every unfinished packet by one and drops those whose time is up. */
    method TimeoutStep() returns (rv: bool)
      requires Valid()
      modifies this, trees, items
      ensures Valid()
      ensures slots == Timeout(old(slots))
      ensures rv <==> SomeExpires(old(slots), |old(slots)|)
    {
      ghost var was := slots;
      SlotCount();
      TimeoutEnds(was);
      hide Valid, TimeoutUpTo, Tick, SomeExpires;
      NoneExpires(was);
      rv := false;
      for k := 0 to trees.Length
        invariant Valid() && |slots| == trees.Length
        invariant slots == TimeoutUpTo(was, k)
        invariant rv <==> SomeExpires(was, k)
      {
        TimeoutUpToStep(was, k);
        OneMoreExpires(was, k);
        var expired := AgeTree(k);
        rv := rv || expired;
      }
    }

    // ---------- storing a message ----------

    /** Takes the first free item off its list and fills it. */
    method PushData(data: Chunk)
      requires free < items.Length
      modifies this`free, items
      ensures free == old(items[free].next)
      ensures items[..] == old(items[..])[old(free) as nat := Item(NIL, data)]
    {
      var idx := free;
      free := items[idx].next;
      items[idx] := Item(NIL, data);
    }

    lemma FirstFree()
      requires Linked() && free != NIL
      ensures lists[trees.Length] != [] && free as int == lists[trees.Length][0] < items.Length
    {
      assert Chain(items[..], HeadsOf(trees[..], free)[trees.Length], lists[trees.Length]);
    }

    /** The body of the loop in push_new() once an empty tree is found. */
    method StartTree(k: nat, id: ExtId, data: Chunk, dlc: Byte)
      requires Valid() && k < trees.Length && slots[k].Empty? && free != NIL
      modifies this, trees, items
      ensures Valid()
      ensures slots == old(slots)[k := Busy(if dlc != 0 then id else id.(frm := 0), dlc, TIMEOUT, [data])]
    {
      hide Distinct, Covered, Shared, AllHold;
      ghost var m := trees.Length;
      ghost var heads: seq<Byte> := HeadsOf(trees[..], free);
      ghost var items0, trees0 := items[..], trees[..];
      ghost var x: Byte := free;
      var stored := if dlc != 0 then id else id.(frm := 0);
      var t := Tree(stored, free, dlc, TIMEOUT);
      ghost var slot := Busy(stored, dlc, TIMEOUT, [data]);
      OneHolds(items0, trees0, lists, slots, k);
      FirstFree();
      Append(items0, heads, lists, own, m, k, data);
      AppendHolds(items0, heads, lists, own, trees0, slots, k, t, slot, data);
      OwnedItems(items0, heads, lists, own);
      trees[k] := t;
      PushData(data);
      assert HeadsOf(trees[..], free) == heads[k := x][m := items0[x].next];
      assert items[..] == Appended(items0, lists, m, k, data);
      assert trees[..] == trees0[k := t];
      lists, own := Moved(lists, m, k, false), own[x := k];
      slots := slots[k := slot];
    }

    /** Walks to the tail of tree k and appends the message. The walk always ends at a tail:
        while an item is free no chain can hold them all. */
    method AppendToTree(k: nat, data: Chunk) returns (rv: ErrorType)
      requires Valid() && k < trees.Length && slots[k].Busy? && free != NIL
      modifies this, trees, items
      ensures Valid()
      ensures rv == MsgAccepted
      ensures slots == old(slots)[k := old(slots)[k].(to := TIMEOUT, chunks := old(slots)[k].chunks + [data])]
    {
      ghost var m := trees.Length;
      ghost var chain := lists[k];
      assert Holds(items[..], trees[k], chain, slots[k]);
      ghost var heads: seq<Byte> := HeadsOf(trees[..], free);
      assert Chain(items[..], heads[k], chain);
      FirstFree();
      TotalBound(lists, k);
      assert |chain| + |lists[m]| <= items.Length;
      hide Shared, AllHold;
      var next := trees[k].head;
      var cnt := 0;
      while cnt < items.Length
        invariant cnt < |chain| && next == chain[cnt]
      {
        assert items[chain[cnt]].next == LinkAfter(chain, cnt);
        cnt := cnt + 1;
        if items[next].next == NIL {
          AppendAfter(k, next, data);
          return MsgAccepted;
        }
        next := items[next].next;
      }
      assert false;
      return ErrorSeqIdx;
    }

    /** Links the first free item behind `tail`, the last item of tree k, and fills it. */
    method AppendAfter(k: nat, tail: Byte, data: Chunk)
      requires Valid() && k < trees.Length && slots[k].Busy? && free != NIL
      requires lists[k] != [] && tail == lists[k][|lists[k]| - 1] < items.Length
      modifies this, trees, items
      ensures Valid()
      ensures slots == old(slots)[k := old(slots)[k].(to := TIMEOUT, chunks := old(slots)[k].chunks + [data])]
    {
      hide Distinct, Covered, Shared, AllHold;
      ghost var m := trees.Length;
      ghost var heads: seq<Byte> := HeadsOf(trees[..], free);
      ghost var items0, trees0 := items[..], trees[..];
      ghost var x: Byte := free;
      OneHolds(items0, trees0, lists, slots, k);
      var t := trees[k].(to := TIMEOUT);
      ghost var slot := slots[k].(to := TIMEOUT, chunks := slots[k].chunks + [data]);
      FirstFree();
      ListsApart(items0, heads, lists, own, k, m);
      Append(items0, heads, lists, own, m, k, data);
      AppendHolds(items0, heads, lists, own, trees0, slots, k, t, slot, data);
      OwnedItems(items0, heads, lists, own);
      trees[k] := t;
      items[tail] := items[tail].(next := free);
      PushData(data);
      assert HeadsOf(trees[..], free) == heads[m := items0[x].next];
      assert items[..] == Appended(items0, lists, m, k, data);
      assert trees[..] == trees0[k := t];
      lists, own := Moved(lists, m, k, false), own[x := k];
      slots := slots[k := slot];
    }

    // ---------- the reassembly machine ----------

    method PushNewTree(id: ExtId, data: Chunk, dlc: Byte) returns (rv: ErrorType)
      requires Valid() && Used(slots) < items.Length
      modifies this, trees, items
      ensures Valid()
      ensures (slots, rv) == PushNew(old(slots), id, data, dlc)
    {
      hide Shared, AllHold, FindEmpty, Used;
      UsedAfterRemove(slots, id.key);
      Remove(id);
      FreeCount();
      SlotCount();
      hide Valid;
      for k := 0 to trees.Length
        invariant Valid() && |slots| == trees.Length && slots == RemoveKey(old(slots), id.key)
        invariant free != NIL
        invariant forall j :: 0 <= j < k ==> !slots[j].Empty?
      {
        Inspect(k);
        if trees[k].head != NIL {
          continue;
        }
        assert k == FindEmpty(slots);
        StartTree(k, id, data, dlc);
        return if dlc != 0 then PacketAvailable else MsgAccepted;
      }
      assert FindEmpty(slots) == |slots|;
      var expired := TimeoutStep();
      return ErrorTreeOverflow;
    }

    /** The body of the loop in push_next() once the tree is found. */
    method ContinueTree(k: nat, id: ExtId, data: Chunk, dlc: Byte) returns (rv: ErrorType)
      requires Valid() && k < trees.Length && slots[k].Open() && free != NIL
      modifies this, trees, items
      ensures Valid()
      ensures rv == Continue(old(slots)[k], id.frm, data, dlc).1
      ensures slots == old(slots)[k := Continue(old(slots)[k], id.frm, data, dlc).0]
    {
      Inspect(k);
      hide Valid;
      var tFrm: Frm := 0;
      if dlc == 0 {
        tFrm := trees[k].id.frm;
        if id.frm != tFrm {
          tFrm := if tFrm > 0 then tFrm - 1 else FRM_SEQ_MAX;
          if id.frm != tFrm {
            return ErrorOrphan;
          }
          return MsgDropped;
        }
      }
      rv := AppendToTree(k, data);
      if dlc != 0 {
        FinishTree(k, dlc);
        return PacketAvailable;
      }
      AdvanceTree(k, tFrm);
    }

    /** The search of push_next(): the first unfinished tree of the key. */
    method FindTree(key: Key) returns (k: nat)
      requires Valid()
      ensures k == FindOpen(slots, key)
    {
      SlotCount();
      for j := 0 to trees.Length
        invariant forall i :: 0 <= i < j ==> !slots[i].OpenFor(key)
      {
        Inspect(j);
        if trees[j].head == NIL || trees[j].dlc != 0 || trees[j].id.key != key {
          continue;
        }
        return j;
      }
      return trees.Length;
    }

    method PushNextTree(id: ExtId, data: Chunk, dlc: Byte) returns (rv: ErrorType)
      requires Valid() && Used(slots) < items.Length
      modifies this, trees, items
      ensures Valid()
      ensures (slots, rv) == PushNext(old(slots), id, data, dlc)
    {
      FreeCount();
      SlotCount();
      hide Valid, Continue, FindOpen, RemoveKey, Timeout;
      var k := FindTree(id.key);
      if k < trees.Length {
        rv := ContinueTree(k, id, data, dlc);
        if rv != ErrorOrphan {
          return;
        }
        OrphanKeeps(old(slots)[k], id.frm, data, dlc);
      }
      assert slots == old(slots);
      Remove(id);
      var expired := TimeoutStep();
      rv := ErrorOrphan;
    }

    method FinishTree(k: nat, dlc: Byte)
      requires Valid() && k < trees.Length && slots[k].Busy?
      modifies this`slots, trees
      ensures Valid()
      ensures slots == old(slots)[k := old(slots)[k].(dlc := dlc)]
    {
      ghost var heads: seq<Byte> := HeadsOf(trees[..], free);
      ghost var trees0, slots0 := trees[..], slots;
      trees[k] := trees[k].(dlc := dlc);
      slots := slots[k := slots[k].(dlc := dlc)];
      assert HeadsOf(trees[..], free) == heads;
      assert Holds(items[..], trees0[k], lists[k], slots0[k]);
      HoldKept(items[..], trees0, lists, slots0, items[..], trees[..], lists, slots, k, items.Length);
    }

    method AdvanceTree(k: nat, tFrm0: Frm)
      requires Valid() && k < trees.Length && slots[k].Busy?
      modifies this`slots, trees
      ensures Valid()
      ensures slots == old(slots)[k := old(slots)[k].(id := old(slots)[k].id.(frm := NextFrm(tFrm0)))]
    {
      ghost var heads: seq<Byte> := HeadsOf(trees[..], free);
      ghost var trees0, slots0 := trees[..], slots;
      var tFrm: nat := tFrm0 + 1;
      var frm: Frm := if tFrm > FRM_SEQ_MAX then 0 else tFrm;
      trees[k] := trees[k].(id := trees[k].id.(frm := frm));
      slots := slots[k := slots[k].(id := slots[k].id.(frm := frm))];
      assert HeadsOf(trees[..], free) == heads;
      assert Holds(items[..], trees0[k], lists[k], slots0[k]);
      HoldKept(items[..], trees0, lists, slots0, items[..], trees[..], lists, slots, k, items.Length);
    }

    /** The entry point for one received message. */
    method PushFrame(f: Frame) returns (rv: ErrorType)
      requires Valid()
      modifies this, trees, items
      ensures Valid()
      ensures (slots, rv) == Push(old(slots), items.Length, f)
    {
      FreeCount();
      UsedBound();
      hide Valid;
      if free == NIL {
        var expired := TimeoutStep();
        Remove(f.id);
        return ErrorSlotsOverflow;
      }
      if f.id.frm == FRM_END {
        if f.dlc == 0 {
          return ErrorDLC;
        }
        rv := PushNextTree(f.id, f.data, f.dlc);
        if rv != MsgAccepted {
          return;
        }
        assert false;
      } else if f.id.frm == FRM_START {
        if f.dlc != 8 {
          return ErrorDLC;
        }
        rv := PushNewTree(f.id, f.data, 0);
      } else if f.id.frm == FRM_SINGLE {
        rv := PushNewTree(f.id, f.data, if f.dlc > 0 then f.dlc else ZERO_LENGTH);
      } else {
        if f.dlc != 8 {
          return ErrorDLC;
        }
        rv := PushNextTree(f.id, f.data, 0);
      }
    }

    lemma UsedBound()
      requires Valid()
      ensures Used(slots) <= items.Length
    {
      FreeCount();
    }

    // ---------- reading ----------

    /** Copies the chain of a finished tree into a stream of capacity sz and releases it. */
    method ReadTree(k: nat, sz: nat) returns (out: seq<Byte>)
      requires Valid() && k < trees.Length && slots[k].Finished()
      modifies this, trees, items
      ensures Valid()
      ensures out == ReadBytes(old(slots)[k], sz)
      ensures slots == old(slots)[k := Empty]
    {
      ghost var chain, slot := lists[k], slots[k];
      assert Holds(items[..], trees[k], chain, slot);
      assert Chain(items[..], HeadsOf(trees[..], free)[k], chain);
      var t := trees[k];
      out := [];
      if 2 <= sz {
        out := Le16(t.id.key.pid);
      }
      var next := t.head;
      ghost var p := 0;
      while true
        invariant p < |chain| && next == chain[p]
        invariant CopyChunks(out, slot.chunks[p..], slot.dlc, sz) == ReadBytes(slot, sz)
        decreases |chain| - p
      {
        assert items[chain[p]].next == LinkAfter(chain, p);
        assert slot.chunks[p..][1..] == slot.chunks[p + 1..];
        var data := items[next].data;
        next := items[next].next;
        if next != NIL {
          if |out| + 8 > sz {
            break;
          }
          out := out + data;
          p := p + 1;
          continue;
        }
        if t.dlc <= 8 {
          if |out| + t.dlc > sz {
            break;
          }
          out := out + data[..t.dlc];
        }
        break;
      }
      RemoveTree(k);
    }

    /** Empties finished slots in order until one of them yields bytes. */
    method ReadPacket(sz: nat, src0: Src) returns (out: seq<Byte>, src: Src)
      requires Valid()
      modifies this, trees, items
      ensures Valid()
      ensures ReadResult(slots, out, src) == ReadFrom(old(slots), 0, sz, src0)
    {
      SlotCount();
      hide Valid;
      src := src0;
      for k := 0 to trees.Length
        invariant Valid() && |slots| == trees.Length
        invariant ReadFrom(slots, k, sz, src) == ReadFrom(old(slots), 0, sz, src0)
      {
        Inspect(k);
        if trees[k].head == NIL {
          continue;
        }
        if trees[k].dlc == 0 {
          continue;
        }
        src := trees[k].id.key.src;
        out := ReadTree(k, sz);
        if |out| > 0 {
          return;
        }
      }
      out := [];
    }
  }
}
