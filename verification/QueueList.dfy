/** The decision queue as a doubly linked list threaded through two tables, and
    the stamps that order it (queue.hpp). */
module QueueList {
  import opened Logic

  /** The list `order`, from `first` to `last`; 0 stands for no variable. */
  ghost predicate LinkedAs(order: seq<int>, prev: map<int, int>, next: map<int, int>, first: int, last: int) {
    && NoDuplicates(order)
    && first == (if order == [] then 0 else order[0])
    && last == (if order == [] then 0 else order[|order|-1])
    && (forall i :: 0 <= i < |order| ==> LinkAt(order, prev, next, i))
  }

  ghost predicate LinkAt(order: seq<int>, prev: map<int, int>, next: map<int, int>, i: nat)
    requires i < |order|
  {
    && order[i] > 0 && order[i] in prev && order[i] in next
    && prev[order[i]] == (if i == 0 then 0 else order[i-1])
    && next[order[i]] == (if i == |order| - 1 then 0 else order[i+1])
  }

  function Without(order: seq<int>, i: nat): seq<int>
    requires i < |order|
  {
    order[..i] + order[i+1..]
  }

  /** The links after `dequeue`. */
  function UnlinkedNext(next: map<int, int>, p: int, n: int): map<int, int> {
    if p != 0 then next[p := n] else next
  }

  function UnlinkedPrev(prev: map<int, int>, p: int, n: int): map<int, int> {
    if n != 0 then prev[n := p] else prev
  }

  lemma Dequeued(order: seq<int>, prev: map<int, int>, next: map<int, int>, first: int, last: int, i: nat)
    requires LinkedAs(order, prev, next, first, last) && i < |order|
    ensures order[i] in prev && order[i] in next
    ensures var p, n := prev[order[i]], next[order[i]];
      LinkedAs(Without(order, i), UnlinkedPrev(prev, p, n), UnlinkedNext(next, p, n),
        if p != 0 then first else n, if n != 0 then last else p)
  {
    assert LinkAt(order, prev, next, i);
    assert i > 0 ==> LinkAt(order, prev, next, i - 1);
    assert i + 1 < |order| ==> LinkAt(order, prev, next, i + 1);
    var p, n := prev[order[i]], next[order[i]];
    var rest := Without(order, i);
    forall k | 0 <= k < |rest|
      ensures LinkAt(rest, UnlinkedPrev(prev, p, n), UnlinkedNext(next, p, n), k)
    {
      assert LinkAt(order, prev, next, if k < i then k else k + 1);
    }
  }

  lemma Enqueued(order: seq<int>, prev: map<int, int>, next: map<int, int>, first: int, last: int, idx: int)
    requires LinkedAs(order, prev, next, first, last) && idx > 0 && idx !in order
    ensures last != 0 ==> last in order
    ensures LinkedAs(order + [idx], prev[idx := last], (if last != 0 then next[last := idx] else next)[idx := 0],
              if last != 0 then first else idx, idx)
  {
    var more := order + [idx];
    var prev1 := prev[idx := last];
    var next1 := (if last != 0 then next[last := idx] else next)[idx := 0];
    assert order != [] ==> LinkAt(order, prev, next, |order| - 1);
    forall k | 0 <= k < |more|
      ensures LinkAt(more, prev1, next1, k)
    {
      assert k < |order| ==> LinkAt(order, prev, next, k) && order[k] != idx;
    }
  }

  /** Stamps rise along the list, and none is above the counter. */
  ghost predicate Stamped(order: seq<int>, btab: map<int, int>, counter: int) {
    && (forall v :: v in order ==> v in btab && btab[v] <= counter)
    && (forall i, j :: 0 <= i < j < |order| ==> btab[order[i]] < btab[order[j]])
  }

  lemma StampedMoved(order: seq<int>, btab: map<int, int>, counter: int, i: nat, idx: int)
    requires Stamped(order, btab, counter) && NoDuplicates(order) && i < |order| && order[i] == idx
    ensures Stamped(Without(order, i) + [idx], btab[idx := counter + 1], counter + 1)
  {
    var more := Without(order, i) + [idx];
    var stamps := btab[idx := counter + 1];
    assert forall k :: 0 <= k < |more| - 1 ==> more[k] == order[if k < i then k else k + 1] && more[k] != idx;
    forall v | v in more
      ensures v in stamps && stamps[v] <= counter + 1
    {
      assert v != idx ==> v in order;
    }
    forall a, b | 0 <= a < b < |more|
      ensures stamps[more[a]] < stamps[more[b]]
    {
      assert more[a] in order;
    }
  }

  /** Variables unassigned are stamped no later than `bumped`, and the search
      pointer no earlier: so they lie at or before the pointer. */
  ghost predicate PointerOk(order: seq<int>, btab: map<int, int>, vals: map<int, bool>, pointer: int, bumped: int) {
    if order == [] then pointer == 0
    else
      && pointer in order && pointer in btab && bumped <= btab[pointer]
      && forall v :: v in order && v !in vals ==> v in btab && btab[v] <= bumped
  }

  /** No unassigned variable comes after the pointer in the list. */
  lemma UnassignedBefore(order: seq<int>, btab: map<int, int>, counter: int, vals: map<int, bool>, pointer: int,
        bumped: int, i: nat, j: nat)
    requires Stamped(order, btab, counter) && PointerOk(order, btab, vals, pointer, bumped)
    requires i < |order| && j < |order| && order[i] == pointer && order[j] !in vals
    ensures j <= i
  {
    var u, v := order[i], order[j];
    assert u in order && v in order;
    assert u in btab && v in btab;
  }

  lemma PositionIn(order: seq<int>, v: int) returns (i: nat)
    requires v in order
    ensures i < |order| && order[i] == v
  {
    i :| 0 <= i < |order| && order[i] == v;
  }

  lemma ElementsMoved(order: seq<int>, i: nat)
    requires i < |order| && NoDuplicates(order)
    ensures forall v :: v in Without(order, i) + [order[i]] <==> v in order
    ensures order[i] !in Without(order, i)
  {
    var more := Without(order, i) + [order[i]];
    forall v
      ensures v in more <==> v in order
    {
      if v in order {
        var k := PositionIn(order, v);
        assert v == more[if k < i then k else if k == i then |more| - 1 else k - 1];
      }
    }
  }
}
