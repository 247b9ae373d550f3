/** The variable-move-to-front decision queue of the search loop, kept in step
    with assignments and backtracking (queue.hpp, queue.cpp, analyze.cpp,
    backtrack.cpp, decide.cpp), and the DLIS scan over it (internal.cpp). */
module DecisionQueue {
  import opened Logic
  import opened Clauses
  import opened Watching
  import opened QueueList
  import opened TrailCompaction

  type Variable = v: int | v > 0 witness 1

  /** Watches of `lit` whose clause is not garbage while neither `lit` nor the
      blocking literal is assigned. */
  function OpenWatches(ws: seq<Watch>, garbage: set<nat>, lit: Lit, vals: map<int, bool>): nat {
    if ws == [] then 0
    else
      var w := ws[|ws|-1];
      OpenWatches(ws[..|ws|-1], garbage, lit, vals) +
      if w.clause in garbage || Val(lit, vals) != 0 || Val(w.blit, vals) != 0 then 0 else 1
  }

  /** The positions of such watches. */
  ghost function OpenPositions(ws: seq<Watch>, garbage: set<nat>, lit: Lit, vals: map<int, bool>): set<nat> {
    set i: nat | i < |ws| && ws[i].clause !in garbage && Val(lit, vals) == 0 && Val(ws[i].blit, vals) == 0
  }

  lemma {:induction false} OpenCounted(ws: seq<Watch>, garbage: set<nat>, lit: Lit, vals: map<int, bool>)
    ensures OpenWatches(ws, garbage, lit, vals) == |OpenPositions(ws, garbage, lit, vals)|
  {
    var all := OpenPositions(ws, garbage, lit, vals);
    if ws != [] {
      var k := |ws| - 1;
      OpenCounted(ws[..k], garbage, lit, vals);
      var rest := OpenPositions(ws[..k], garbage, lit, vals);
      assert all == rest + if k in all then {k} else {};
      assert k !in rest;
    } else {
      assert all == {};
    }
  }

  ghost function Score(v: Variable, watches: WatchLists, garbage: set<nat>, vals: map<int, bool>): nat
    requires v in watches && Neg(v) in watches
  {
    (OpenWatches(watches[v], garbage, v, vals) + OpenWatches(watches[Neg(v)], garbage, Neg(v), vals)) / 2
  }

  /** How many open watches the two literals of a variable have. */
  ghost function Total(v: Variable, watches: WatchLists, garbage: set<nat>, vals: map<int, bool>): nat
    requires v in watches && Neg(v) in watches
  {
    |OpenPositions(watches[v], garbage, v, vals)| + |OpenPositions(watches[Neg(v)], garbage, Neg(v), vals)|
  }

  lemma ScoreIsHalf(v: Variable, watches: WatchLists, garbage: set<nat>, vals: map<int, bool>)
    requires v in watches && Neg(v) in watches
    ensures var sum := Total(v, watches, garbage, vals);
      2 * Score(v, watches, garbage, vals) <= sum <= 2 * Score(v, watches, garbage, vals) + 1
  {
    hide OpenPositions, OpenWatches;
    OpenCounted(watches[v], garbage, v, vals);
    OpenCounted(watches[Neg(v)], garbage, Neg(v), vals);
  }

  ghost predicate Listed(order: seq<int>, watches: WatchLists) {
    forall v: Variable :: v in order ==> v in watches && Neg(v) in watches
  }

  /** All variables after position `i` are assigned. */
  ghost predicate AllBefore(order: seq<int>, vals: map<int, bool>, i: int) {
    forall k :: i < k < |order| && 0 <= k ==> order[k] in vals
  }

  lemma PointerKnown(order: seq<int>, btab: map<int, int>, counter: int, vals: map<int, bool>, pointer: int,
        bumped: int)
    returns (i: nat)
    requires Stamped(order, btab, counter) && PointerOk(order, btab, vals, pointer, bumped) && order != []
    ensures i < |order| && order[i] == pointer && AllBefore(order, vals, i)
  {
    i := PositionIn(order, pointer);
    forall k | i < k < |order|
      ensures order[k] in vals
    {
      if order[k] !in vals {
        UnassignedBefore(order, btab, counter, vals, pointer, bumped, i, k);
      }
    }
  }

  lemma AnotherBefore(order: seq<int>, prev: map<int, int>, next: map<int, int>, first: int, last: int, vals: map<int,
        bool>, i: nat)
    requires LinkedAs(order, prev, next, first, last) && i < |order| && order[i] in vals && AllBefore(order, vals, i)
    requires exists v :: v in order && v !in vals
    ensures i > 0 && order[i] in prev && prev[order[i]] == order[i-1] && AllBefore(order, vals, i - 1)
  {
    LinksOf(order, prev, next, first, last, i);
    var v :| v in order && v !in vals;
    var k := PositionIn(order, v);
  }

  /** The unassigned variable reached first from the end is stamped last. */
  lemma LatestFound(order: seq<int>, btab: map<int, int>, counter: int, vals: map<int, bool>, i: nat)
    requires Stamped(order, btab, counter) && i < |order| && order[i] !in vals && AllBefore(order, vals, i)
    ensures order[i] in order && order[i] in btab && PointerOk(order, btab, vals, order[i], btab[order[i]])
    ensures forall v :: v in order && v !in vals ==> v in btab && btab[v] <= btab[order[i]]
  {
    StampOf(order, btab, counter, order[i]);
    forall v | v in order && v !in vals
      ensures v in btab && btab[v] <= btab[order[i]]
    {
      var k := PositionIn(order, v);
      StampOf(order, btab, counter, v);
    }
  }

  predicate Behind(mine: int, best: int, strictly: bool) {
    mine < best || (mine == best && !strictly)
  }

  /** The scan has seen the positions after `i`; `best` is at position `b`. */
  ghost predicate Scanned(order: seq<int>, vals: map<int, bool>, watches: WatchLists, garbage: set<nat>, i: int,
        best: int, score: int, b: int) {
    && Listed(order, watches) && (forall v :: v in order ==> v > 0)
    && (best == 0 ==> score == -1 && AllBefore(order, vals, i))
    && (best != 0 ==> i < b < |order| && 0 <= b && order[b] == best && best !in vals && best > 0)
    && (best != 0 ==> best in order && score == Score(best, watches, garbage, vals))
    && (forall k :: i < k < |order| && 0 <= k && order[k] !in vals ==>
          order[k] in order && Behind(Score(order[k], watches, garbage, vals), score, best != 0 && k > b))
  }

  lemma ScanFrom(order: seq<int>, prev: map<int, int>, next: map<int, int>, first: int, last: int, btab: map<int, int>,
        counter: int,
                 vals: map<int, bool>, pointer: int, bumped: int, watches: WatchLists,
                 garbage: set<nat>) returns (i: int)
    requires LinkedAs(order, prev, next, first, last) && Stamped(order, btab, counter)
    requires PointerOk(order, btab, vals, pointer, bumped) && Listed(order, watches)
    ensures -1 <= i < |order| && (if i < 0 then pointer == 0 else pointer == order[i] && pointer != 0)
    ensures Scanned(order, vals, watches, garbage, i, 0, -1, 0)
  {
    hide LinkedAs, Stamped, OpenWatches;
    PositiveOrder(order, prev, next, first, last);
    if order == [] {
      i := -1;
    } else {
      i := PointerKnown(order, btab, counter, vals, pointer, bumped);
      assert order[i] in order;
    }
  }

  lemma ScanStep(order: seq<int>, vals: map<int, bool>, watches: WatchLists, garbage: set<nat>, i: nat, best: int,
        score: int, b: int)
    requires Scanned(order, vals, watches, garbage, i, best, score, b) && i < |order|
    ensures order[i] > 0 && order[i] in order && order[i] in watches && Neg(order[i]) in watches
    ensures order[i] in vals ==> Scanned(order, vals, watches, garbage, i - 1, best, score, b)
    ensures order[i] !in vals ==>
      var now := Score(order[i], watches, garbage, vals);
      if now > score then Scanned(order, vals, watches, garbage, i - 1, order[i], now, i)
      else Scanned(order, vals, watches, garbage, i - 1, best, score, b)
  {
    hide OpenWatches, Score;
    var v := order[i];
    assert v in order;
  }

  /** The total of `v`, halved downwards, is less than that of `best`, or as much and
      `v` was bumped earlier. */
  ghost predicate NotBetter(v: Variable, best: Variable, btab: map<int, int>, watches: WatchLists, garbage: set<nat>,
        vals: map<int, bool>) {
    && v in watches && Neg(v) in watches && best in watches && Neg(best) in watches && v in btab && best in btab
    && var mine, its := Total(v, watches, garbage, vals), Total(best, watches, garbage, vals);
    mine / 2 < its / 2 || (mine / 2 == its / 2 && btab[v] < btab[best])
  }

  lemma ScanDone(order: seq<int>, btab: map<int, int>, counter: int, vals: map<int, bool>, watches: WatchLists,
        garbage: set<nat>, best: int, score: int, b: int)
    requires Scanned(order, vals, watches, garbage, -1, best, score, b) && Stamped(order, btab, counter)
    ensures best == 0 <==> forall v :: v in order ==> v in vals
    ensures best != 0 ==> best in order && best !in vals && best > 0
    ensures best != 0 ==> forall v: Variable :: v in order && v !in vals && v != best ==>
      NotBetter(v, best, btab, watches, garbage, vals)
  {
    hide OpenWatches, Score, Total;
    forall v: Variable | v in order
      ensures best == 0 ==> v in vals
      ensures best != 0 && v !in vals && v != best ==> NotBetter(v, best, btab, watches, garbage, vals)
    {
      var k := PositionIn(order, v);
      StampOf(order, btab, counter, v);
      if best != 0 {
        StampOf(order, btab, counter, best);
        ScoreIsHalf(v, watches, garbage, vals);
        ScoreIsHalf(best, watches, garbage, vals);
      }
    }
  }

  lemma LinksOf(order: seq<int>, prev: map<int, int>, next: map<int, int>, first: int, last: int, i: nat)
    requires LinkedAs(order, prev, next, first, last) && i < |order|
    ensures NoDuplicates(order) && order[i] > 0 && order[i] in prev && order[i] in next
    ensures next[order[i]] == 0 <==> i == |order| - 1
    ensures prev[order[i]] == if i == 0 then 0 else order[i-1]
  {
    assert LinkAt(order, prev, next, i);
    assert i + 1 < |order| ==> LinkAt(order, prev, next, i + 1);
  }

  lemma FirstKnown(order: seq<int>, prev: map<int, int>, next: map<int, int>, first: int, last: int, btab: map<int,
        int>, counter: int)
    requires LinkedAs(order, prev, next, first, last) && Stamped(order, btab, counter)
    ensures first == 0 <==> order == []
    ensures order != [] ==> first == order[0] && first in btab
  {
    if order != [] {
      assert LinkAt(order, prev, next, 0) && order[0] in order;
    }
  }

  lemma Prepended(order: seq<int>, prev: map<int, int>, next: map<int, int>, first: int, last: int, idx: int)
    requires LinkedAs(order, prev, next, first, last) && idx > 0 && idx !in order
    ensures LinkedAs([idx] + order, (if first != 0 then prev[first := idx] else prev)[idx := 0], next[idx := first],
              idx, if first != 0 then last else idx)
  {
    var more := [idx] + order;
    var prev1, next1 := (if first != 0 then prev[first := idx] else prev)[idx := 0], next[idx := first];
    assert order != [] ==> LinkAt(order, prev, next, 0);
    forall k | 0 <= k < |more|
      ensures LinkAt(more, prev1, next1, k)
    {
      assert k > 0 ==> LinkAt(order, prev, next, k - 1) && order[k-1] != idx;
    }
  }

  lemma PointerBumped(order: seq<int>, btab: map<int, int>, counter: int, vals: map<int, bool>, pointer: int,
        bumped: int, i: nat, idx: int)
    requires Stamped(order, btab, counter) && PointerOk(order, btab, vals, pointer, bumped) && NoDuplicates(order)
    requires i < |order| && order[i] == idx
    ensures var now, stamps := Without(order, i) + [idx], btab[idx := counter + 1];
      PointerOk(now, stamps, vals, if idx in vals then pointer else idx, if idx in vals then bumped else counter + 1)
  {
    hide Stamped, Without;
    ElementsMoved(order, i);
    StampsBounded(order, btab, counter);
  }

  lemma StampOf(order: seq<int>, btab: map<int, int>, counter: int, v: int)
    requires Stamped(order, btab, counter) && v in order
    ensures v in btab && btab[v] <= counter
  {
  }

  lemma StampsBounded(order: seq<int>, btab: map<int, int>, counter: int)
    requires Stamped(order, btab, counter)
    ensures forall v :: v in order ==> v in btab && btab[v] <= counter
  {
  }

  lemma StampedNew(order: seq<int>, btab: map<int, int>, counter: int, idx: int)
    requires Stamped(order, btab, counter) && idx !in order
    ensures Stamped(order + [idx], btab[idx := counter + 1], counter + 1)
  {
    var more, stamps := order + [idx], btab[idx := counter + 1];
    forall a, b | 0 <= a < b < |more|
      ensures more[a] in stamps && more[b] in stamps && stamps[more[a]] < stamps[more[b]]
    {
      StampOf(order, btab, counter, more[a]);
      if b < |order| {
        StampOf(order, btab, counter, more[b]);
      }
    }
  }

  lemma PointerNew(order: seq<int>, btab: map<int, int>, counter: int, vals: map<int, bool>, pointer: int, bumped: int,
        idx: int)
    requires Stamped(order, btab, counter) && PointerOk(order, btab, vals, pointer, bumped) && idx !in order
    ensures PointerOk(order + [idx], btab[idx := counter + 1], vals, idx, counter + 1)
  {
    hide Stamped;
    StampsBounded(order, btab, counter);
  }

  lemma PointerFirst(order: seq<int>, btab: map<int, int>, counter: int, vals: map<int, bool>, pointer: int,
        bumped: int, first: int, idx: int)
    requires Stamped(order, btab, counter) && counter >= 0
    requires idx !in order && idx !in vals && idx > 0 && (forall v :: v in order ==> v > 0)
    requires if order == [] then first == 0 else first == order[0] && first in btab
    ensures var stamps := btab[idx := if order == [] then 0 else btab[first] - 1];
      && Stamped([idx] + order, stamps, counter)
      && (order == [] ==> PointerOk([idx] + order, stamps, vals, idx, 0))
      && (order != [] && PointerOk(order, btab, vals, pointer, bumped) ==>
            pointer != 0 && (PointerOk([idx] + order, stamps, vals, pointer, bumped) <==> stamps[idx] <= bumped))
  {
    var more := [idx] + order;
    var stamps := btab[idx := if order == [] then 0 else btab[first] - 1];
    StampsBounded(order, btab, counter);
    forall a, b | 0 <= a < b < |more|
      ensures more[a] in stamps && more[b] in stamps && stamps[more[a]] < stamps[more[b]]
    {
      StampOf(order, btab, counter, order[b-1]);
      if a > 0 {
        StampOf(order, btab, counter, order[a-1]);
      }
      assert b > 1 ==> btab[order[0]] < btab[order[b-1]];
    }
    assert idx in more && forall v :: v in more <==> v == idx || v in order;
  }

  lemma PositiveOrder(order: seq<int>, prev: map<int, int>, next: map<int, int>, first: int, last: int)
    requires LinkedAs(order, prev, next, first, last)
    ensures forall v :: v in order ==> v > 0
  {
    forall v | v in order
      ensures v > 0
    {
      var i := PositionIn(order, v);
      assert LinkAt(order, prev, next, i);
    }
  }

  lemma BumpKeeps(order: seq<int>, btab: map<int, int>, counter: int, vals: map<int, bool>, pointer: int, bumped: int,
        i: nat)
    requires NoDuplicates(order) && i < |order| && Stamped(order, btab, counter)
    requires PointerOk(order, btab, vals, pointer, bumped)
    ensures var idx := order[i];
      var now, stamps := Without(order, i) + [idx], btab[idx := counter + 1];
      && idx !in Without(order, i) && (i == |order| - 1 ==> now == order)
      && Stamped(now, stamps, counter + 1)
      && PointerOk(now, stamps, vals, if idx in vals then pointer else idx, if idx in vals then bumped else counter + 1)
  {
    hide Stamped, PointerOk, Without, NoDuplicates;
    var idx := order[i];
    LastMoved(order, i);
    ElementsMoved(order, i);
    StampedMoved(order, btab, counter, i, idx);
    PointerBumped(order, btab, counter, vals, pointer, bumped, i, idx);
  }

  lemma LastMoved(order: seq<int>, i: nat)
    requires i < |order|
    ensures i == |order| - 1 ==> Without(order, i) + [order[i]] == order
  {
  }

  lemma NewKeeps(order: seq<int>, btab: map<int, int>, counter: int, vals: map<int, bool>, pointer: int, bumped: int,
        idx: int)
    requires idx !in order && Stamped(order, btab, counter)
    requires PointerOk(order, btab, vals, pointer, bumped)
    ensures var now, stamps := order + [idx], btab[idx := counter + 1];
      && Stamped(now, stamps, counter + 1)
      && PointerOk(now, stamps, vals, idx, counter + 1)
  {
    hide Stamped, PointerOk;
    StampedNew(order, btab, counter, idx);
    PointerNew(order, btab, counter, vals, pointer, bumped, idx);
  }

  /** Putting a variable in front: its stamp decides about the pointer. */
  lemma FrontKeeps(order: seq<int>, prev: map<int, int>, next: map<int, int>, first: int, last: int,
                   btab: map<int, int>, counter: int, vals: map<int, bool>, pointer: int, bumped: int, idx: int)
    requires LinkedAs(order, prev, next, first, last) && idx !in order && idx !in vals && idx > 0
    requires Stamped(order, btab, counter) && counter >= 0
    ensures first == 0 <==> order == []
    ensures first != 0 ==> first in btab
    ensures var now, stamps := [idx] + order, btab[idx := if first == 0 then 0 else btab[first] - 1];
      && LinkedAs(now, (if first != 0 then prev[first := idx] else prev)[idx := 0], next[idx := first], idx,
           if first != 0 then last else idx)
      && Stamped(now, stamps, counter)
      && (first == 0 ==> PointerOk(now, stamps, vals, idx, 0))
      && (first != 0 && PointerOk(order, btab, vals, pointer, bumped) ==>
            (PointerOk(now, stamps, vals, pointer, bumped) <==> stamps[idx] <= bumped))
  {
    hide LinkedAs, Stamped;
    FirstKnown(order, prev, next, first, last, btab, counter);
    PositiveOrder(order, prev, next, first, last);
    Prepended(order, prev, next, first, last, idx);
    PointerFirst(order, btab, counter, vals, pointer, bumped, first, idx);
  }

  /** The queue with its links and stamps. */
  class Queue {
    var prev: map<int, int>
    var next: map<int, int>
    var first: int
    var last: int
    var unassigned: int
    var bumped: int
    var btab: map<int, int>
    var statsBumped: int
    ghost var order: seq<int>

    /** The links spell `order`, and the pointer bounds the unassigned variables. */
    ghost predicate Valid(vals: map<int, bool>)
      reads this
    {
      Linked() && PointerOk(order, btab, vals, unassigned, bumped)
    }

    ghost predicate Linked()
      reads this
    {
      LinkedAs(order, prev, next, first, last) && Stamped(order, btab, statsBumped) && statsBumped >= 0
    }

    constructor ()
      ensures Valid(map[]) && order == [] && btab == map[] && unassigned == bumped == statsBumped == 0
    {
      prev, next, first, last, unassigned, bumped := map[], map[], 0, 0, 0, 0;
      btab, statsBumped, order := map[], 0, [];
    }

    method UpdateUnassigned(idx: int)
      requires idx in btab
      modifies this`unassigned, this`bumped
      ensures unassigned == idx && bumped == btab[idx]
    {
      unassigned := idx;
      bumped := btab[idx];
    }

    method Dequeue(idx: int, ghost i: nat)
      requires LinkedAs(order, prev, next, first, last) && i < |order| && order[i] == idx
      modifies this`prev, this`next, this`first, this`last, this`order
      ensures LinkedAs(order, prev, next, first, last) && order == Without(old(order), i)
    {
      hide LinkedAs, LinkAt;
      Dequeued(order, prev, next, first, last, i);
      var p, n := prev[idx], next[idx];
      if p != 0 {
        next := next[p := n];
      } else {
        first := n;
      }
      if n != 0 {
        prev := prev[n := p];
      } else {
        last := p;
      }
      order := Without(order, i);
    }

    method Enqueue(idx: int)
      requires LinkedAs(order, prev, next, first, last) && idx > 0 && idx !in order
      modifies this`prev, this`next, this`first, this`last, this`order
      ensures LinkedAs(order, prev, next, first, last) && order == old(order) + [idx]
    {
      hide LinkedAs;
      Enqueued(order, prev, next, first, last, idx);
      prev := prev[idx := last];
      if prev[idx] != 0 {
        next := next[last := idx];
      } else {
        first := idx;
      }
      last := idx;
      next := next[idx := 0];
      order := order + [idx];
    }

    /** `bump_queue`: the variable becomes the last of the queue. */
    method Bump(lit: Lit, vals: map<int, bool>) returns (ghost i: nat)
      requires Valid(vals) && Var(lit) in order
      modifies this
      ensures Valid(vals)
      ensures i < |old(order)| && old(order)[i] == Var(lit) && order == Without(old(order), i) + [Var(lit)]
      ensures i + 1 < |old(order)| ==> btab == old(btab)[Var(lit) := statsBumped] && statsBumped == old(statsBumped) + 1
      ensures i + 1 == |old(order)| ==> btab == old(btab) && statsBumped == old(statsBumped)
      ensures i + 1 == |old(order)| ==> unassigned == old(unassigned) && bumped == old(bumped)
      ensures Var(lit) in vals ==> unassigned == old(unassigned) && bumped == old(bumped)
      ensures Var(lit) !in vals && i + 1 < |old(order)| ==> unassigned == Var(lit) && bumped == old(statsBumped) + 1
    {
      hide LinkedAs, Stamped, PointerOk, NoDuplicates, Without;
      var idx := Var(lit);
      i := PositionIn(order, idx);
      LinksOf(order, prev, next, first, last, i);
      BumpKeeps(order, btab, statsBumped, vals, unassigned, bumped, i);
      if next[idx] == 0 {
        return;
      }
      Dequeue(idx, i);
      Enqueue(idx);
      statsBumped := statsBumped + 1;
      btab := btab[idx := statsBumped];
      if idx !in vals {
        UpdateUnassigned(idx);
      }
    }

    /** A new variable becomes the last of the queue. */
    method InitEnqueue(idx: int, vals: map<int, bool>)
      requires Valid(vals) && idx > 0 && idx !in order && idx !in vals
      modifies this
      ensures Valid(vals) && order == old(order) + [idx]
      ensures statsBumped == old(statsBumped) + 1 && btab == old(btab)[idx := statsBumped]
      ensures unassigned == idx && bumped == statsBumped
    {
      hide LinkedAs, Stamped, PointerOk;
      NewKeeps(order, btab, statsBumped, vals, unassigned, bumped, idx);
      Enqueue(idx);
      statsBumped := statsBumped + 1;
      btab := btab[idx := statsBumped];
      UpdateUnassigned(idx);
    }

    /** With the option `reverse` a new variable becomes the first instead.  The
        pointer invariant survives exactly if its stamp is not above `bumped`. */
    method InitEnqueueReverse(idx: int, vals: map<int, bool>)
      requires Linked() && (unassigned == 0 <==> order == []) && idx > 0 && idx !in order && idx !in vals
      modifies this
      ensures Linked() && order == [idx] + old(order) && unassigned != 0
      ensures old(order) == [] ==> btab == old(btab)[idx := 0] && unassigned == idx && bumped == 0
      ensures old(order) != [] ==> old(first) in old(btab) && btab == old(btab)[idx := old(btab[first]) - 1]
      ensures old(order) != [] ==> unassigned == old(unassigned) && bumped == old(bumped)
      ensures statsBumped == old(statsBumped)
      ensures old(Valid(vals)) ==>
        (Valid(vals) <==> old(order == [] || (first in btab && btab[first] - 1 <= bumped)))
    {
      hide LinkedAs, Stamped, PointerOk;
      FrontKeeps(order, prev, next, first, last, btab, statsBumped, vals, unassigned, bumped, idx);
      if first != 0 {
        prev := prev[first := idx];
        btab := btab[idx := btab[first] - 1];
      } else {
        last := idx;
        btab := btab[idx := 0];
      }
      prev := prev[idx := 0];
      next := next[idx := first];
      first := idx;
      order := [idx] + order;
      if unassigned == 0 {
        UpdateUnassigned(last);
      }
    }

    /** `next_decision_variable_on_queue`: the unassigned variable bumped last. */
    method NextOnQueue(vals: map<int, bool>) returns (res: int)
      requires Valid(vals) && exists v :: v in order && v !in vals
      modifies this`unassigned, this`bumped
      ensures Valid(vals) && res in order && res !in vals
      ensures forall v :: v in order && v !in vals ==> v in btab && res in btab && btab[v] <= btab[res]
      ensures unassigned == res
      ensures (res == old(unassigned) && bumped == old(bumped)) || (res in btab && bumped == btab[res])
    {
      hide LinkedAs, LinkAt, Stamped, PointerOk, NoDuplicates;
      var searched := 0;
      res := unassigned;
      assert order != [];
      ghost var i := PointerKnown(order, btab, statsBumped, vals, unassigned, bumped);
      while res in vals
        invariant Valid(vals)
        invariant 0 <= i < |order| && order[i] == res && searched >= 0
        invariant AllBefore(order, vals, i)
        invariant searched == 0 ==> res == unassigned
        invariant unassigned == old(unassigned) && bumped == old(bumped)
        decreases i
      {
        AnotherBefore(order, prev, next, first, last, vals, i);
        res := prev[res];
        i := i - 1;
        searched := searched + 1;
      }
      LatestFound(order, btab, statsBumped, vals, i);
      if searched > 0 {
        UpdateUnassigned(res);
      }
    }

    /** `count_literal_in_unsatisfied_clauses_`. */
    method CountWatches(ws: seq<Watch>, garbage: set<nat>, lit: Lit, vals: map<int, bool>) returns (count: nat)
      ensures count == OpenWatches(ws, garbage, lit, vals)
    {
      count := 0;
      var valLit := Val(lit, vals);
      for i := 0 to |ws|
        invariant count == OpenWatches(ws[..i], garbage, lit, vals)
      {
        assert ws[..i+1][..i] == ws[..i];
        var w := ws[i];
        if w.clause in garbage {
          continue;
        }
        if valLit != 0 || Val(w.blit, vals) != 0 {
          continue;
        }
        count := count + 1;
      }
      assert ws[..|ws|] == ws;
    }

    /** `next_decision_variable_with_dlis`: 0 exactly if every variable is
        assigned; else an unassigned variable of maximal averaged count, and
        among those the one bumped last. */
    method NextWithDlis(vals: map<int, bool>, watches: WatchLists, garbage: set<nat>) returns (best: int)
      requires Valid(vals)
      requires Listed(order, watches)
      ensures best == 0 <==> forall v :: v in order ==> v in vals
      ensures best != 0 ==> best in order && best !in vals && best > 0
      ensures best != 0 ==> forall v: Variable :: v in order && v !in vals && v != best ==>
        NotBetter(v, best, btab, watches, garbage, vals)
    {
      hide LinkedAs, LinkAt, Stamped, PointerOk, NoDuplicates, Scanned, Listed, OpenWatches, NotBetter;
      best := 0;
      var bestScore: int := -1;
      var idx := unassigned;
      ghost var i := ScanFrom(order, prev, next, first, last, btab, statsBumped, vals, unassigned, bumped, watches,
        garbage);
      ghost var b := 0;
      while idx != 0
        invariant -1 <= i < |order| && (if i < 0 then idx == 0 else idx == order[i] && idx != 0)
        invariant Scanned(order, vals, watches, garbage, i, best, bestScore, b)
        decreases i
      {
        ScanStep(order, vals, watches, garbage, i, best, bestScore, b);
        LinksOf(order, prev, next, first, last, i);
        PositiveOrder(order, prev, next, first, last);
        if idx !in vals {
          var posScore := CountWatches(watches[idx], garbage, idx, vals);
          var negScore := CountWatches(watches[Neg(idx)], garbage, Neg(idx), vals);
          var medScore := (posScore + negScore) / 2;
          if medScore > bestScore {
            bestScore := medScore;
            best := idx;
            b := i;
          }
        }
        idx := prev[idx];
        assert i > 0 ==> order[i-1] in order;
        i := i - 1;
      }
      ScanDone(order, btab, statsBumped, vals, watches, garbage, best, bestScore, b);
    }
  }

  /** Both variables of a queue are assigned and bumped, so that the stamp stored
      for the pointer is out of date. */
  method StalePointer() returns (q: Queue)
    ensures q.Linked() && q.order == [1, 2] && q.first == 1 && q.btab == map[1 := 2, 2 := 3]
    ensures q.unassigned == 2 && q.bumped == -1 && q.Valid(map[1 := true, 2 := true]) && fresh(q)
  {
    hide LinkedAs, Stamped, PointerOk, Without;
    q := new Queue();
    q.InitEnqueueReverse(1, map[]);
    q.InitEnqueueReverse(2, map[]);
    assert q.order == [2, 1];
    // Variable 1 is assigned, and the search decides 2.
    var vals := map[1 := true];
    TwoLeft(q, vals);
    var res := q.NextOnQueue(vals);
    OnlyTwo(q.order, vals, res);
    vals := map[1 := true, 2 := true];
    AllAssigned(q, vals);
    assert q.btab == map[1 := 0, 2 := -1];
    ghost var i := q.Bump(2, vals);
    OrderOf(q.order, [2, 1], i, 2);
    i := q.Bump(1, vals);
    OrderOf(q.order, [1, 2], i, 1);
    i := q.Bump(2, vals);
    OrderOf(q.order, [2, 1], i, 2);
    OrderedFirst(q);
  }

  /** Two variables enter in front of such a pointer, both unassigned; assigning
      and unassigning the front one moves the pointer to it, and the other one,
      still unassigned, lies behind the pointer. */
  method ReversePointerLost() returns (q: Queue)
    ensures q.Linked() && q.order == [4, 3, 1, 2] && q.unassigned == 4
    ensures !PointerOk(q.order, q.btab, map[1 := true, 2 := true], q.unassigned, q.bumped)
  {
    hide LinkedAs, Stamped;
    q := StalePointer();
    var vals := map[1 := true, 2 := true];
    q.InitEnqueueReverse(3, vals);
    OrderedFirst(q);
    q.InitEnqueueReverse(4, vals);
    // Variable 4 gets a value and loses it again.
    if q.bumped < q.btab[4] {
      q.UpdateUnassigned(4);
    }
    assert 3 in q.order;
  }

  lemma AllAssigned(q: Queue, vals: map<int, bool>)
    requires q.Valid(map[1 := true]) && vals == map[1 := true, 2 := true]
    ensures q.Valid(vals)
  {
  }

  lemma OrderedFirst(q: Queue)
    requires q.Linked() && q.order != []
    ensures q.first == q.order[0] && q.first in q.btab
  {
    assert q.order[0] in q.order;
  }

  lemma TwoLeft(q: Queue, vals: map<int, bool>)
    requires q.Linked() && q.order == [2, 1] && q.unassigned == 1 && q.bumped == 0 && q.btab == map[1 := 0, 2 := -1]
    requires vals == map[1 := true]
    ensures q.Valid(vals) && 2 in q.order && 2 !in vals
  {
  }

  lemma OnlyTwo(order: seq<int>, vals: map<int, bool>, res: int)
    requires order == [2, 1] && vals == map[1 := true] && res in order && res !in vals
    ensures res == 2
  {
  }

  /** What bumping the first of two variables makes of the list. */
  lemma OrderOf(order: seq<int>, before: seq<int>, i: nat, idx: int)
    requires |before| == 2 && before[0] == idx != before[1] && i < 2 && before[i] == idx
    requires order == Without(before, i) + [idx]
    ensures i == 0 && order == [before[1], idx]
  {
  }
}
