/** The priority queue with updates of heap.hpp: a binary heap of unsigned
    numbers that knows the position of each of its elements. */
module Heap {
  import opened HeapOrder

  /** `items` and `pos` are inverse to each other. */
  ghost predicate Mutual(items: seq<nat>, pos: map<nat, nat>) {
    && (forall i :: 0 <= i < |items| ==> items[i] in pos && pos[items[i]] == i)
    && (forall e :: e in pos ==> pos[e] < |items| && items[pos[e]] == e)
  }

  lemma MutualSwap(items: seq<nat>, pos: map<nat, nat>, i: nat, j: nat)
    requires Mutual(items, pos) && i < |items| && j < |items|
    ensures Mutual(Swapped(items, i, j), pos[items[i] := j][items[j] := i])
    ensures pos[items[i] := j][items[j] := i].Keys == pos.Keys
  {
  }

  lemma MutualPush(items: seq<nat>, pos: map<nat, nat>, e: nat)
    requires Mutual(items, pos) && e !in pos
    ensures Mutual(items + [e], pos[e := |items|])
  {
  }

  lemma MutualPop(items: seq<nat>, pos: map<nat, nat>)
    requires Mutual(items, pos) && items != []
    ensures Mutual(items[..|items|-1], pos - {items[|items|-1]})
  {
    var e := items[|items|-1];
    forall x | x in pos && x != e
      ensures pos[x] < |items| - 1
    {
    }
  }

  lemma MutualDistinct(items: seq<nat>, pos: map<nat, nat>)
    requires Mutual(items, pos)
    ensures forall i, j :: 0 <= i < j < |items| ==> items[i] != items[j]
  {
    forall i, j | 0 <= i < j < |items|
      ensures items[i] != items[j]
    {
      assert pos[items[i]] == i && pos[items[j]] == j;
    }
  }

  class PriorityQueue {
    var items: seq<nat>
    var pos: map<nat, nat>

    ghost predicate Valid(less: Order)
      reads this
    {
      Mutual(items, pos) && Heaped(items, less)
    }

    constructor ()
      ensures forall less :: Valid(less)
      ensures pos == map[]
    {
      items, pos := [], map[];
    }

    method Exchange(a: nat, b: nat)
      requires Mutual(items, pos) && a in pos && b in pos
      modifies this
      ensures Mutual(items, pos) && pos.Keys == old(pos.Keys)
      ensures items == Swapped(old(items), old(pos[a]), old(pos[b])) && |items| == |old(items)|
    {
      hide Mutual;
      PositionsIn(a);
      PositionsIn(b);
      var i, j := pos[a], pos[b];
      MutualSwap(items, pos, i, j);
      items := items[i := items[j]][j := items[i]];
      pos := pos[a := j][b := i];
    }

    lemma PositionsIn(e: nat)
      requires Mutual(items, pos) && e in pos
      ensures pos[e] < |items| && items[pos[e]] == e
    {
    }

    /** Bubble `e` up as far as necessary. */
    method Up(less: Order, e: nat)
      requires StrictWeak(less) && Mutual(items, pos) && e in pos && LooseAt(items, less, pos[e])
      modifies this
      ensures Mutual(items, pos) && pos.Keys == old(pos.Keys) && e in pos && |items| == |old(items)|
      ensures LooseBelow(items, less, pos[e])
    {
      hide StrictWeak, Mutual, LooseAt, LooseBelow, Swapped;
      PositionsIn(e);
      while pos[e] > 0 && less(items[Parent(pos[e])], e)
        invariant Mutual(items, pos) && pos.Keys == old(pos.Keys) && e in pos && |items| == |old(items)|
        invariant pos[e] < |items| && items[pos[e]] == e
        invariant LooseAt(items, less, pos[e])
        decreases pos[e]
      {
        var k := pos[e];
        var p := items[Parent(k)];
        UpStep(items, less, k);
        ElementAt(Parent(k));
        ghost var before := items;
        Exchange(p, e);
        SwapCommutes(before, k, Parent(k));
        SwappedPosition(e, before, Parent(k), k);
      }
      UpDone(items, less, pos[e]);
    }

    lemma ElementAt(i: nat)
      requires Mutual(items, pos) && i < |items|
      ensures items[i] in pos && pos[items[i]] == i
    {
    }

    /** After the exchange `e` is where its neighbour was. */
    lemma SwappedPosition(e: nat, before: seq<nat>, i: nat, j: nat)
      requires Mutual(items, pos) && i < |before| && j < |before| && before[j] == e && items == Swapped(before, i, j)
      ensures e in pos && pos[e] == i < |items| && items[i] == e
    {
      assert items[i] == e;
    }

    /** Bubble `e` down as far as necessary. */
    method Down(less: Order, e: nat)
      requires StrictWeak(less) && Mutual(items, pos) && e in pos && LooseBelow(items, less, pos[e])
      modifies this
      ensures Valid(less) && pos.Keys == old(pos.Keys) && |items| == |old(items)|
    {
      hide StrictWeak, Mutual, LooseAt, LooseBelow, Swapped, Heaped;
      PositionsIn(e);
      while 2 * pos[e] + 1 < |items|
        invariant Mutual(items, pos) && pos.Keys == old(pos.Keys) && e in pos && |items| == |old(items)|
        invariant pos[e] < |items| && items[pos[e]] == e
        invariant LooseBelow(items, less, pos[e])
        decreases |items| - pos[e]
      {
        var k := pos[e];
        var c := items[2 * k + 1];
        ghost var at := 2 * k + 1;
        if 2 * k + 2 < |items| {
          var r := items[2 * k + 2];
          if less(c, r) {
            c := r;
            at := 2 * k + 2;
          }
        }
        LargerChild(items, less, k, at);
        if !less(e, c) {
          NoChildAbove(items, less, k, at);
          DownDone(items, less, k);
          return;
        }
        DownStep(items, less, k, at);
        ElementAt(at);
        ghost var before := items;
        Exchange(e, c);
        SwapCommutes(before, k, at);
        SwappedPosition(e, before, at, k);
      }
      NoChildren(items, pos[e]);
      DownDone(items, less, pos[e]);
    }

    /** Add an element that is not in the heap. */
    method PushBack(less: Order, e: nat)
      requires StrictWeak(less) && Valid(less) && e !in pos
      modifies this
      ensures Valid(less) && pos.Keys == old(pos.Keys) + {e} && |items| == |old(items)| + 1
    {
      hide StrictWeak, Mutual, LooseAt, LooseBelow, Heaped;
      var i := |items|;
      MutualPush(items, pos, e);
      AppendLoose(items, less, e);
      items := items + [e];
      pos := pos[e := i];
      Up(less, e);
      Down(less, e);
    }

    /** The maximum. */
    method Front(less: Order) returns (res: nat)
      requires StrictWeak(less) && Valid(less) && items != []
      ensures res == items[0] && res in pos && forall x :: x in pos ==> !less(res, x)
    {
      res := items[0];
      forall x | x in pos
        ensures !less(res, x)
      {
        FirstIsMaximal(items, less, pos[x]);
      }
    }

    /** Remove the maximum. */
    method PopFront(less: Order) returns (res: nat)
      requires StrictWeak(less) && Valid(less) && items != []
      modifies this
      ensures Valid(less) && pos.Keys == old(pos.Keys) - {res} && res == old(items[0]) && |items| == |old(items)| - 1
      ensures res in old(pos) && forall x :: x in old(pos) ==> !less(res, x)
    {
      hide StrictWeak, Mutual, LooseAt, LooseBelow, Heaped, Swapped;
      ghost var before := items;
      var best := Front(less);
      var last := items[|items|-1];
      ElementAt(0);
      ElementAt(|items|-1);
      res := items[0];
      Maximal(less);
      if |items| > 1 {
        Exchange(res, last);
      }
      MovedLast(before, items);
      MutualPop(items, pos);
      pos := pos - {res};
      items := items[..|items|-1];
      if |items| > 1 {
        ElementAt(0);
        ReplaceFirst(before, less, items);
        Down(less, last);
      } else {
        SmallHeap(items, less);
      }
    }

    lemma Maximal(less: Order)
      requires StrictWeak(less) && Valid(less) && items != []
      ensures forall x :: x in pos ==> !less(items[0], x)
    {
      forall x | x in pos
        ensures !less(items[0], x)
      {
        FirstIsMaximal(items, less, pos[x]);
      }
    }

    /** The key of `e` has changed, and no other. */
    method Update(less: Order, ghost before: Order, e: nat)
      requires StrictWeak(before) && Valid(before) && StrictWeak(less) && SameBut(less, before, e) && e in pos
      modifies this
      ensures Valid(less) && pos.Keys == old(pos.Keys)
    {
      hide StrictWeak, Mutual, LooseAt, LooseBelow, Heaped, SameBut;
      PositionsIn(e);
      MutualDistinct(items, pos);
      KeyChanged(items, before, less, pos[e]);
      Up(less, e);
      Down(less, e);
    }
  }

  lemma SwapCommutes(a: seq<nat>, i: nat, j: nat)
    requires i < |a| && j < |a|
    ensures Swapped(a, i, j) == Swapped(a, j, i)
  {
  }

  lemma LargerChild(a: seq<nat>, less: Order, k: nat, at: nat)
    requires StrictWeak(less) && 2 * k + 1 < |a|
    requires at == if 2 * k + 2 < |a| && less(a[2 * k + 1], a[2 * k + 2]) then 2 * k + 2 else 2 * k + 1
    ensures 0 < at < |a| && Parent(at) == k
    ensures forall s :: 0 < s < |a| && Parent(s) == k ==> !less(a[at], a[s])
  {
    forall s | 0 < s < |a| && Parent(s) == k
      ensures !less(a[at], a[s])
    {
      Irreflexive(less, a[s]);
      if at == 2 * k + 2 {
        LessAsym(less, a[2 * k + 1], a[2 * k + 2]);
      }
    }
  }

  lemma NoChildAbove(a: seq<nat>, less: Order, k: nat, at: nat)
    requires StrictWeak(less) && k < at < |a| && 2 * k + 1 < |a|
    requires at == if 2 * k + 2 < |a| && less(a[2 * k + 1], a[2 * k + 2]) then 2 * k + 2 else 2 * k + 1
    requires !less(a[k], a[at])
    ensures forall s :: 0 < s < |a| && Parent(s) == k ==> !less(a[k], a[s])
  {
  }

  lemma NoChildren(a: seq<nat>, k: nat)
    requires 2 * k + 1 >= |a|
    ensures forall s :: 0 < s < |a| ==> Parent(s) != k
  {
  }

  lemma SmallHeap(a: seq<nat>, less: Order)
    requires |a| <= 1
    ensures Heaped(a, less)
  {
  }

  lemma MovedLast(before: seq<nat>, now: seq<nat>)
    requires before != []
    requires now == if |before| > 1 then Swapped(before, 0, |before| - 1) else before
    ensures |now| == |before| && now[|now|-1] == before[0] && now[0] == before[|before|-1]
    ensures forall i :: 0 < i < |now| - 1 ==> now[i] == before[i]
  {
  }
}
