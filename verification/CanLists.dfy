/** Singly linked lists threaded through one item array by 8-bit indices: what it means for several
    of them to share the array without overlap, and the two ways an item changes list. */
module CanLists {
  import opened Bytes
  import opened CanFormat

  const NIL: Byte := 0xFF

  datatype Item = Item(next: Byte, data: Chunk)

  ghost function LinkAfter(s: seq<nat>, p: nat): nat {
    if p + 1 < |s| then s[p + 1] else NIL
  }

  /** The list of indices `s` is what a walk from `head` visits. */
  ghost predicate Chain(items: seq<Item>, head: Byte, s: seq<nat>) {
    && head == (if s == [] then NIL else s[0])
    && (forall p :: 0 <= p < |s| ==> s[p] < |items| && s[p] < NIL)
    && (forall p {:trigger LinkAfter(s, p)} :: 0 <= p < |s| ==> items[s[p]].next == LinkAfter(s, p))
  }

  ghost predicate Distinct(s: seq<nat>) {
    forall p, q :: 0 <= p < q < |s| ==> s[p] != s[q]
  }

  ghost predicate Covered(lists: seq<seq<nat>>, own: seq<nat>, i: nat) {
    i < |own| && own[i] < |lists| && i in lists[own[i]]
  }

  /** own[i] is the only list that holds item i. */
  ghost predicate Partition(lists: seq<seq<nat>>, own: seq<nat>) {
    && (forall k :: 0 <= k < |lists| ==> Distinct(lists[k]))
    && (forall k, p :: 0 <= k < |lists| && 0 <= p < |lists[k]| ==>
          lists[k][p] < |own| && own[lists[k][p]] == k)
    && (forall i :: 0 <= i < |own| ==> Covered(lists, own, i))
  }

  ghost function Total(lists: seq<seq<nat>>): nat {
    if lists == [] then 0 else |lists[0]| + Total(lists[1..])
  }

  /** Acyclic, NIL-terminated, disjoint lists that together hold every item exactly once. */
  ghost predicate Shared(items: seq<Item>, heads: seq<Byte>, lists: seq<seq<nat>>, own: seq<nat>) {
    && |heads| == |lists| && |own| == |items| <= NIL
    && (forall k :: 0 <= k < |lists| ==> Chain(items, heads[k], lists[k]))
    && Partition(lists, own)
    && Total(lists) == |items|
  }

  lemma {:induction false} TotalUpdate(lists: seq<seq<nat>>, k: nat, s: seq<nat>)
    requires k < |lists|
    ensures Total(lists[k := s]) == Total(lists) - |lists[k]| + |s|
  {
    if k == 0 {
      assert lists[0 := s][1..] == lists[1..];
    } else {
      assert lists[k := s][1..] == lists[1..][k - 1 := s];
      TotalUpdate(lists[1..], k - 1, s);
    }
  }

  lemma {:induction false} TotalBound(lists: seq<seq<nat>>, k: nat)
    requires k < |lists|
    ensures |lists[k]| <= Total(lists)
    ensures forall l :: 0 <= l < |lists| && l != k ==> |lists[k]| + |lists[l]| <= Total(lists)
  {
    if k == 0 {
      forall l | 0 < l < |lists| ensures |lists[l]| <= Total(lists[1..]) {
        TotalBound(lists[1..], l - 1);
      }
    } else {
      TotalBound(lists[1..], k - 1);
      forall l | 0 < l < |lists| && l != k ensures |lists[k]| + |lists[l]| <= Total(lists) {
        assert lists[l] == lists[1..][l - 1];
      }
    }
  }

  /** Item x, the first of list a, becomes the first or the last of list b. */
  ghost function Moved(lists: seq<seq<nat>>, a: nat, b: nat, atFront: bool): seq<seq<nat>>
    requires a < |lists| && b < |lists| && a != b && lists[a] != []
  {
    var x := lists[a][0];
    lists[a := lists[a][1..]][b := if atFront then [x] + lists[b] else lists[b] + [x]]
  }

  lemma MovedLists(lists: seq<seq<nat>>, a: nat, b: nat, atFront: bool)
    requires a < |lists| && b < |lists| && a != b && lists[a] != []
    ensures var moved := Moved(lists, a, b, atFront);
            && |moved| == |lists| && moved[a] == lists[a][1..]
            && forall j :: 0 <= j < |lists| && j != a && j != b ==> moved[j] == lists[j]
  {
  }

  lemma MovePartition(lists: seq<seq<nat>>, own: seq<nat>, a: nat, b: nat, atFront: bool)
    requires Partition(lists, own)
    requires a < |lists| && b < |lists| && a != b && lists[a] != []
    ensures lists[a][0] < |own|
    ensures |Moved(lists, a, b, atFront)| == |lists|
    ensures Partition(Moved(lists, a, b, atFront), own[lists[a][0] := b])
    ensures Total(Moved(lists, a, b, atFront)) == Total(lists)
  {
    var x := lists[a][0];
    var moved := Moved(lists, a, b, atFront);
    TotalUpdate(lists, a, lists[a][1..]);
    TotalUpdate(lists[a := lists[a][1..]], b, moved[b]);
    assert x < |own|;
    var own' := own[x := b];
    assert Partition(moved, own') by {
      hide Moved;
      forall k | 0 <= k < |moved| ensures Distinct(moved[k]) {
        MovedDistinct(lists, own, a, b, atFront, k);
      }
      forall k, p | 0 <= k < |moved| && 0 <= p < |moved[k]|
        ensures moved[k][p] < |own'| && own'[moved[k][p]] == k
      {
      }
      forall i | 0 <= i < |own'| ensures Covered(moved, own', i) {
        MovedCovers(lists, own, a, b, atFront, i);
      }
    }
  }

  lemma MovedDistinct(lists: seq<seq<nat>>, own: seq<nat>, a: nat, b: nat, atFront: bool, k: nat)
    requires Partition(lists, own)
    requires a < |lists| && b < |lists| && a != b && lists[a] != []
    requires k < |lists|
    ensures Distinct(Moved(lists, a, b, atFront)[k])
  {
    assert Distinct(lists[k]);
    if k == b {
      var x := lists[a][0];
      assert own[x] == a;
      forall p | 0 <= p < |lists[b]| ensures lists[b][p] != x {
        assert own[lists[b][p]] == b;
      }
    }
  }

  lemma MovedCovers(lists: seq<seq<nat>>, own: seq<nat>, a: nat, b: nat, atFront: bool, i: nat)
    requires Partition(lists, own)
    requires a < |lists| && b < |lists| && a != b && lists[a] != [] && lists[a][0] < |own|
    requires i < |own|
    ensures Covered(Moved(lists, a, b, atFront), own[lists[a][0] := b], i)
  {
    assert Covered(lists, own, i);
    var x := lists[a][0];
    var moved := Moved(lists, a, b, atFront);
    if i == x {
      assert moved[b][if atFront then 0 else |lists[b]|] == x;
    } else {
      var p :| 0 <= p < |lists[own[i]]| && lists[own[i]][p] == i;
      if own[i] == a {
        assert moved[a][p - 1] == i;
      } else if own[i] == b {
        assert moved[b][if atFront then p + 1 else p] == i;
      }
    }
  }

  lemma Apart(lists: seq<seq<nat>>, own: seq<nat>, j: nat, k: nat)
    requires Partition(lists, own) && j < |lists| && k < |lists| && j != k
    ensures forall p, q :: 0 <= p < |lists[j]| && 0 <= q < |lists[k]| ==> lists[j][p] != lists[k][q]
  {
    forall p, q | 0 <= p < |lists[j]| && 0 <= q < |lists[k]| ensures lists[j][p] != lists[k][q] {
      assert own[lists[j][p]] == j && own[lists[k][q]] == k;
    }
  }

  // ---------- one chain at a time ----------

  lemma ChainTail(items: seq<Item>, head: Byte, s: seq<nat>)
    requires Chain(items, head, s) && s != []
    ensures Chain(items, items[head].next, s[1..])
  {
    assert items[s[0]].next == LinkAfter(s, 0);
    forall p | 0 <= p < |s| - 1 ensures s[1..][p] == s[p + 1] && LinkAfter(s[1..], p) == LinkAfter(s, p + 1) {}
  }

  lemma ChainCons(items: seq<Item>, head: Byte, s: seq<nat>, x: Byte)
    requires Chain(items, head, s)
    requires x < |items| && x < NIL && items[x].next == head
    ensures Chain(items, x, [x as nat] + s)
  {
    var t := [x as nat] + s;
    forall p | 0 < p < |t| ensures t[p] == s[p - 1] && LinkAfter(t, p) == LinkAfter(s, p - 1) {}
  }

  lemma ChainSnoc(items: seq<Item>, items': seq<Item>, head: Byte, s: seq<nat>, x: Byte)
    requires Chain(items, head, s) && |items'| == |items| && s != []
    requires x < |items| && x < NIL && items'[x].next == NIL
    requires forall p :: 0 <= p < |s| - 1 ==> items'[s[p]].next == items[s[p]].next
    requires items'[s[|s| - 1]].next == x
    ensures Chain(items', head, s + [x])
  {
    forall p | 0 <= p <= |s| ensures items'[(s + [x])[p]].next == LinkAfter(s + [x], p) {
      if p < |s| {
        assert items[s[p]].next == LinkAfter(s, p);
      }
    }
  }

  /** remove(): the first item of a chain goes to the front of the free list f. */
  lemma Release(items: seq<Item>, heads: seq<Byte>, lists: seq<seq<nat>>, own: seq<nat>, a: nat, f: nat)
    requires Shared(items, heads, lists, own)
    requires a < |lists| && f < |lists| && a != f && lists[a] != []
    ensures var x := heads[a];
            && x as int == lists[a][0] && x < |items|
            && Shared(items[x := items[x].(next := heads[f])],
                      heads[a := items[x].next][f := x], Moved(lists, a, f, true), own[x := f])
  {
    assert Chain(items, heads[a], lists[a]);
    var x := heads[a];
    MovePartition(lists, own, a, f, true);
    var heads' := heads[a := items[x].next][f := x];
    forall k | 0 <= k < |lists|
      ensures Chain(items[x := items[x].(next := heads[f])], heads'[k], Moved(lists, a, f, true)[k])
    {
      ReleasedChain(items, heads, lists, own, a, f, k);
    }
  }

  lemma ReleasedChain(items: seq<Item>, heads: seq<Byte>, lists: seq<seq<nat>>, own: seq<nat>,
                      a: nat, f: nat, k: nat)
    requires Shared(items, heads, lists, own)
    requires a < |lists| && f < |lists| && a != f && lists[a] != [] && k < |lists|
    requires heads[a] as int == lists[a][0] < |items|
    ensures var x := heads[a];
            Chain(items[x := items[x].(next := heads[f])], heads[a := items[x].next][f := x][k],
                  Moved(lists, a, f, true)[k])
  {
    var x := heads[a];
    var items' := items[x := items[x].(next := heads[f])];
    assert Chain(items, heads[k], lists[k]);
    assert own[x] == a && Distinct(lists[a]);
    assert forall p :: 0 <= p < |lists[k]| ==> own[lists[k][p]] == k;
    if k == a {
      ChainTail(items, x, lists[a]);
    } else {
      if k == f {
        ChainCons(items', heads[f], lists[f], x);
      }
    }
  }

  /** push(): the first free item, filled with data, becomes the tail of list b. */
  ghost function Appended(items: seq<Item>, lists: seq<seq<nat>>, f: nat, b: nat, data: Chunk): seq<Item>
    requires f < |lists| && b < |lists| && lists[f] != [] && lists[f][0] < |items|
    requires forall p :: 0 <= p < |lists[b]| ==> lists[b][p] < |items|
    requires lists[f][0] < NIL
  {
    var x := lists[f][0];
    var linked := if lists[b] == [] then items
                  else var tail := lists[b][|lists[b]| - 1]; items[tail := items[tail].(next := x)];
    linked[x := Item(NIL, data)]
  }

  lemma AppendedData(items: seq<Item>, lists: seq<seq<nat>>, f: nat, b: nat, data: Chunk)
    requires f < |lists| && b < |lists| && lists[f] != [] && lists[f][0] < |items|
    requires forall p :: 0 <= p < |lists[b]| ==> lists[b][p] < |items|
    requires lists[f][0] < NIL
    ensures var items' := Appended(items, lists, f, b, data);
            && |items'| == |items| && items'[lists[f][0]].data == data
            && forall i :: 0 <= i < |items| && i != lists[f][0] ==> items'[i].data == items[i].data
  {
  }

  lemma Append(items: seq<Item>, heads: seq<Byte>, lists: seq<seq<nat>>, own: seq<nat>,
               f: nat, b: nat, data: Chunk)
    requires Shared(items, heads, lists, own)
    requires f < |lists| && b < |lists| && f != b && lists[f] != []
    ensures lists[f][0] < |items| && lists[f][0] < NIL
    ensures forall p :: 0 <= p < |lists[b]| ==> lists[b][p] < |items|
    ensures var x := lists[f][0];
            Shared(Appended(items, lists, f, b, data),
                   (if lists[b] == [] then heads[b := x] else heads)[f := items[x].next],
                   Moved(lists, f, b, false), own[x := b])
  {
    assert Chain(items, heads[f], lists[f]) && Chain(items, heads[b], lists[b]);
    var x := lists[f][0];
    MovePartition(lists, own, f, b, false);
    var heads' := (if lists[b] == [] then heads[b := x] else heads)[f := items[x].next];
    forall k | 0 <= k < |lists|
      ensures Chain(Appended(items, lists, f, b, data), heads'[k], Moved(lists, f, b, false)[k])
    {
      AppendedChain(items, heads, lists, own, f, b, data, k);
    }
  }

  lemma AppendedChain(items: seq<Item>, heads: seq<Byte>, lists: seq<seq<nat>>, own: seq<nat>,
                      f: nat, b: nat, data: Chunk, k: nat)
    requires Shared(items, heads, lists, own)
    requires f < |lists| && b < |lists| && f != b && lists[f] != [] && k < |lists|
    requires lists[f][0] < |items| && lists[f][0] < NIL
    requires forall p :: 0 <= p < |lists[b]| ==> lists[b][p] < |items|
    ensures var x := lists[f][0];
            Chain(Appended(items, lists, f, b, data),
                  (if lists[b] == [] then heads[b := x] else heads)[f := items[x].next][k],
                  Moved(lists, f, b, false)[k])
  {
    var x: Byte := lists[f][0];
    assert Chain(items, heads[k], lists[k]) && Distinct(lists[k]);
    Apart(lists, own, f, b);
    hide Partition, Appended;
    if k == b {
      AppendedTarget(items, heads[b], lists, f, b, data);
    } else {
      Apart(lists, own, k, b);
      if k == f {
        ChainTail(items, x, lists[f]);
      } else {
        Apart(lists, own, k, f);
      }
    }
  }

  lemma AppendedTarget(items: seq<Item>, head: Byte, lists: seq<seq<nat>>, f: nat, b: nat, data: Chunk)
    requires f < |lists| && b < |lists| && f != b && lists[f] != []
    requires lists[f][0] < |items| && lists[f][0] < NIL
    requires Chain(items, head, lists[b]) && Distinct(lists[b])
    requires forall p :: 0 <= p < |lists[b]| ==> lists[b][p] != lists[f][0]
    ensures Chain(Appended(items, lists, f, b, data),
                  if lists[b] == [] then lists[f][0] else head, Moved(lists, f, b, false)[b])
  {
    var x: Byte := lists[f][0];
    var s := lists[b];
    assert Moved(lists, f, b, false)[b] == s + [x as nat];
    hide Moved;
    if s != [] {
      hide Appended;
      ChainSnoc(items, Appended(items, lists, f, b, data), head, s, x);
    }
  }
}
