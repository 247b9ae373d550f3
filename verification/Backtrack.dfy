/** Assigning, unassigning and backtracking with an out-of-order trail, which
    keep the decision queue and the score heap complete (backtrack.cpp), and
    the decision by score (decide.cpp). */
module Backtrack {
  import opened Logic
  import opened QueueList
  import opened TrailCompaction
  import opened HeapOrder
  import Heap
  import opened DecisionQueue

  function Min(a: nat, b: nat): nat {
    if a < b then a else b
  }

  ghost predicate Covers(order: seq<int>, vals: map<int, bool>) {
    forall v :: v in vals ==> v in order
  }

  /** The heap holds variables, among them all that are unassigned. */
  ghost predicate Everywhere(order: seq<int>, vals: map<int, bool>, heap: map<nat, nat>) {
    && (forall v :: v in heap ==> v in order)
    && (forall v: nat :: v in order && v !in vals ==> v in heap)
  }

  lemma PointerUnassign(order: seq<int>, btab: map<int, int>, vals: map<int, bool>, pointer: int, bumped: int, idx: int)
    requires PointerOk(order, btab, vals, pointer, bumped) && idx in order && idx in btab
    ensures var move := bumped < btab[idx];
      PointerOk(order, btab, vals - {idx}, if move then idx else pointer, if move then btab[idx] else bumped)
  {
  }

  lemma PointerAssign(order: seq<int>, btab: map<int, int>, vals: map<int, bool>, pointer: int, bumped: int, idx: int,
        value: bool)
    requires PointerOk(order, btab, vals, pointer, bumped)
    ensures PointerOk(order, btab, vals[idx := value], pointer, bumped)
  {
  }

  lemma TrailedAssign(trail: seq<Lit>, pos: map<int, nat>, vals: map<int, bool>, levels: map<int, nat>, lit: Lit,
        lv: nat)
    requires Trailed(trail, pos, vals, levels) && Var(lit) !in vals
    ensures var v := Var(lit); Trailed(trail + [lit], pos[v := |trail|], vals[v := lit > 0], levels[v := lv])
  {
    var v := Var(lit);
    var more, pos1, vals1, levels1 := trail + [lit], pos[v := |trail|], vals[v := lit > 0], levels[v := lv];
    forall i | 0 <= i < |more|
      ensures OnTrail(more, pos1, vals1, levels1, i)
    {
      assert i < |trail| ==> OnTrail(trail, pos, vals, levels, i);
    }
  }

  lemma ControlledAssign(trail: seq<Lit>, pos: map<int, nat>, vals: map<int, bool>, levels: map<int, nat>,
        control: seq<nat>, lit: Lit, lv: nat)
    requires Trailed(trail, pos, vals, levels) && Controlled(trail, levels, control) && Var(lit) !in vals
    requires lv < |control|
    ensures Controlled(trail + [lit], levels[Var(lit) := lv], control)
  {
    var more, now := trail + [lit], levels[Var(lit) := lv];
    forall i | 0 <= i < |trail|
      ensures Var(more[i]) in levels && Var(more[i]) != Var(lit)
    {
      assert OnTrail(trail, pos, vals, levels, i);
    }
  }

  /** What backtracking to `b` leaves of trail and control is in order. */
  lemma ControlledKept(trail: seq<Lit>, levels: map<int, nat>, control: seq<nat>, b: nat)
    requires Controlled(trail, levels, control) && b + 1 < |control|
    ensures Controlled(Kept(trail, levels, b), levels, control[..b+1])
    ensures control[b+1] <= |Kept(trail, levels, b)|
  {
    hide Kept;
    var n := control[b+1];
    var kept := Kept(trail, levels, b);
    KeptLevels(trail, levels, b);
    KeptPrefix(trail, levels, b, n);
    forall i | 0 <= i < |kept|
      ensures Var(kept[i]) in levels && levels[Var(kept[i])] < b + 1
    {
      assert kept[i] in kept;
    }
    forall k, i | 1 <= k < b + 1 && 0 <= i < control[k]
      ensures i < |kept| && levels[Var(kept[i])] < k
    {
      assert control[k] <= n && kept[..n][i] == trail[..n][i];
    }
  }

  lemma {:induction false} KeptPrefix(trail: seq<Lit>, levels: map<int, nat>, b: nat, n: nat)
    requires n <= |trail| && forall i :: 0 <= i < n ==> Var(trail[i]) in levels && levels[Var(trail[i])] <= b
    ensures n <= |Kept(trail, levels, b)| && Kept(trail, levels, b)[..n] == trail[..n]
  {
    if n == |trail| {
      KeptAll(trail, levels, b);
    } else {
      KeptPrefix(trail[..|trail|-1], levels, b, n);
      assert trail[..|trail|-1][..n] == trail[..n];
    }
  }

  class Internal {
    const queue: Queue
    const scores: Heap.PriorityQueue
    var vals: map<int, bool>
    var levels: map<int, nat>
    var trail: seq<Lit>
    var pos: map<int, nat>
    var control: seq<nat>
    var level: nat
    var propagated: nat
    var propagated2: nat
    var noConflictUntil: nat
    var propergated: nat

    constructor (less: Order)
      ensures fresh(queue) && fresh(scores) && Valid(less) && level == 0 && vals == map[] && queue.order == []
    {
      queue := new Queue();
      scores := new Heap.PriorityQueue();
      vals, levels, trail, pos, control := map[], map[], [], map[], [0];
      level, propagated, propagated2, noConflictUntil, propergated := 0, 0, 0, 0, 0;
    }

    ghost predicate TrailValid()
      reads this
    {
      && Trailed(trail, pos, vals, levels) && Controlled(trail, levels, control) && |control| == level + 1
      && propagated <= |trail| && propagated2 <= |trail| && noConflictUntil <= |trail| && propergated <= |trail|
    }

    ghost predicate Valid(less: Order)
      reads this, queue, scores
    {
      && TrailValid() && queue.Valid(vals) && Covers(queue.order, vals)
      && scores.Valid(less) && Everywhere(queue.order, vals, scores.pos)
    }

    /** `unassign`, but for the trail. */
    method Unassign(lit: Lit, less: Order)
      requires StrictWeak(less) && Var(lit) in vals
      requires queue.Valid(vals) && Covers(queue.order, vals) && scores.Valid(less)
      requires Everywhere(queue.order, vals, scores.pos)
      modifies this`vals, queue`unassigned, queue`bumped, scores
      ensures vals == old(vals) - {Var(lit)}
      ensures queue.Valid(vals) && Covers(queue.order, vals) && scores.Valid(less)
      ensures Everywhere(queue.order, vals, scores.pos)
    {
      hide StrictWeak, LinkedAs, Stamped, PointerOk, HeapOrder.Heaped, Heap.Mutual;
      var idx := Var(lit);
      assert idx in queue.order;
      StampOf(queue.order, queue.btab, queue.statsBumped, idx);
      PointerUnassign(queue.order, queue.btab, vals, queue.unassigned, queue.bumped, idx);
      vals := vals - {idx};
      if idx !in scores.pos {
        scores.PushBack(less, idx);
      }
      if queue.bumped < queue.btab[idx] {
        queue.UpdateUnassigned(idx);
      }
    }

    /** A new variable enters the queue and the heap. */
    method AddVariable(idx: nat, less: Order)
      requires StrictWeak(less) && Valid(less) && idx > 0 && idx !in queue.order
      modifies queue, scores
      ensures Valid(less) && queue.order == old(queue.order) + [idx as int]
    {
      hide StrictWeak, LinkedAs, Stamped, PointerOk, HeapOrder.Heaped, Heap.Mutual, Trailed, Controlled;
      queue.InitEnqueue(idx, vals);
      scores.PushBack(less, idx);
    }

    /** Bumping changes the order of the queue only. */
    method BumpVariable(lit: Lit, less: Order)
      requires Valid(less) && Var(lit) in queue.order
      modifies queue
      ensures Valid(less)
    {
      hide StrictWeak, LinkedAs, Stamped, PointerOk, HeapOrder.Heaped, Heap.Mutual, Trailed, Controlled, Without,
           NoDuplicates;
      QueueDistinct();
      ghost var before := queue.order;
      ghost var i := queue.Bump(lit, vals);
      ElementsMoved(before, i);
    }

    lemma QueueDistinct()
      requires queue.Valid(vals)
      ensures NoDuplicates(queue.order)
    {
    }

    /** `search_assign` on a level that may be below the current one. */
    method SearchAssign(lit: Lit, litLevel: nat, less: Order)
      requires Valid(less) && Var(lit) in queue.order && Var(lit) !in vals && litLevel <= level
      modifies this
      ensures Valid(less) && trail == old(trail) + [lit] && vals == old(vals)[Var(lit) := lit > 0]
      ensures level == old(level) && levels == old(levels)[Var(lit) := litLevel]
    {
      hide LinkedAs, Stamped, PointerOk, HeapOrder.Heaped, Heap.Mutual, Trailed, Controlled;
      var idx := Var(lit);
      TrailedAssign(trail, pos, vals, levels, lit, litLevel);
      ControlledAssign(trail, pos, vals, levels, control, lit, litLevel);
      PointerAssign(queue.order, queue.btab, vals, queue.unassigned, queue.bumped, idx, lit > 0);
      levels := levels[idx := litLevel];
      pos := pos[idx := |trail|];
      vals := vals[idx := lit > 0];
      trail := trail + [lit];
    }

    method NewTrailLevel(less: Order)
      requires Valid(less)
      modifies this`level, this`control
      ensures Valid(less) && level == old(level) + 1 && control == old(control) + [|trail|]
    {
      hide LinkedAs, Stamped, PointerOk, HeapOrder.Heaped, Heap.Mutual, Trailed;
      level := level + 1;
      control := control + [|trail|];
    }

    /** The literal at `i` is unassigned, or moves to position `j`. */
    method CompactOne(i: nat, j: nat, newLevel: nat, less: Order, ghost trail0: seq<Lit>, ghost pos0: map<int, nat>,
          ghost vals0: map<int, bool>)
      returns (k: nat)
      requires Compacting(trail0, vals0, levels, newLevel, i, j, trail, pos, vals) && i < |trail0| && StrictWeak(less)
      requires Trailed(trail0, pos0, vals0, levels)
      requires queue.Valid(vals) && Covers(queue.order, vals) && scores.Valid(less)
      requires Everywhere(queue.order, vals, scores.pos)
      modifies this`trail, this`pos, this`vals, queue`unassigned, queue`bumped, scores
      ensures Compacting(trail0, vals0, levels, newLevel, i + 1, k, trail, pos, vals) && j <= k <= i + 1
      ensures |trail| == |old(trail)|
      ensures queue.Valid(vals) && Covers(queue.order, vals) && scores.Valid(less)
      ensures Everywhere(queue.order, vals, scores.pos)
    {
      hide StrictWeak, LinkedAs, Stamped, PointerOk, HeapOrder.Heaped, Heap.Mutual, Trailed, Covers, Everywhere, Kept;
      k := j;
      CompactNext(trail0, vals0, levels, newLevel, i, j, trail, pos, vals);
      TrailLevel(trail0, pos0, vals0, levels, i);
      var lit := trail[i];
      if levels[Var(lit)] > newLevel {
        CompactDrop(trail0, vals0, levels, newLevel, i, j, trail, pos, vals);
        Unassign(lit, less);
      } else {
        CompactKeep(trail0, vals0, levels, newLevel, i, j, trail, pos, vals);
        trail := trail[j := lit];
        pos := pos[Var(lit) := j];
        k := j + 1;
      }
    }

    /** The loop of `backtrack` over the trail from position `assignedSize` on. */
    method CompactTrail(assignedSize: nat, newLevel: nat, less: Order)
      requires StrictWeak(less) && assignedSize <= |trail| && Trailed(trail, pos, vals, levels)
      requires forall k :: 0 <= k < assignedSize ==> Var(trail[k]) in levels && levels[Var(trail[k])] <= newLevel
      requires queue.Valid(vals) && Covers(queue.order, vals) && scores.Valid(less)
      requires Everywhere(queue.order, vals, scores.pos)
      modifies this`trail, this`pos, this`vals, queue`unassigned, queue`bumped, scores
      ensures trail == Kept(old(trail), levels, newLevel) && vals == ValuesUpTo(old(vals), levels, newLevel)
      ensures Trailed(trail, pos, vals, levels)
      ensures queue.Valid(vals) && Covers(queue.order, vals) && scores.Valid(less)
      ensures Everywhere(queue.order, vals, scores.pos)
    {
      hide StrictWeak, LinkedAs, Stamped, PointerOk, HeapOrder.Heaped, Heap.Mutual, Trailed, Covers, Everywhere,
           Compacting, Kept, ValuesUpTo, OnTrail;
      var endOfTrail := |trail|;
      ghost var trail0, vals0, pos0 := trail, vals, pos;
      CompactStart(trail, pos, vals, levels, newLevel, assignedSize);
      var i, j := assignedSize, assignedSize;
      while i < endOfTrail
        invariant assignedSize <= j <= i <= endOfTrail == |trail0| == |trail|
        invariant Compacting(trail0, vals0, levels, newLevel, i, j, trail, pos, vals)
        invariant queue.Valid(vals) && Covers(queue.order, vals) && scores.Valid(less)
        invariant Everywhere(queue.order, vals, scores.pos)
      {
        j := CompactOne(i, j, newLevel, less, trail0, pos0, vals0);
        i := i + 1;
      }
      CompactDone(trail0, pos0, vals0, levels, newLevel, j, trail, pos, vals);
      trail := trail[..j];
    }

    /** `backtrack`: literals above `newLevel` are unassigned; the others stay,
        in order, and move together. */
    method BacktrackTo(newLevel: nat, less: Order)
      requires StrictWeak(less) && Valid(less) && newLevel <= level
      modifies this, queue`unassigned, queue`bumped, scores
      ensures Valid(less) && level == newLevel && levels == old(levels)
      ensures newLevel < old(level) ==> trail == Kept(old(trail), levels, newLevel)
      ensures newLevel < old(level) ==> vals == ValuesUpTo(old(vals), levels, newLevel)
      ensures newLevel < old(level) ==> control == old(control[..newLevel+1])
      ensures newLevel < old(level) ==>
        var size := old(control)[newLevel+1];
        && propagated == Min(old(propagated), size) && propagated2 == Min(old(propagated2), size)
        && noConflictUntil == Min(old(noConflictUntil), size) && propergated == 0
      ensures newLevel == old(level) ==> trail == old(trail) && vals == old(vals) && control == old(control)
      ensures newLevel == old(level) ==>
        && propagated == old(propagated) && propagated2 == old(propagated2)
        && noConflictUntil == old(noConflictUntil) && propergated == old(propergated)
    {
      hide StrictWeak, LinkedAs, Stamped, PointerOk, HeapOrder.Heaped, Heap.Mutual, Trailed, Controlled, Covers,
           Everywhere,
           Compacting, Kept, ValuesUpTo, OnTrail;
      if newLevel == level {
        return;
      }
      var assignedSize := control[newLevel+1];
      ControlBounds(trail, levels, control, newLevel);
      ControlledKept(trail, levels, control, newLevel);
      CompactTrail(assignedSize, newLevel, less);
      ResetLevel(assignedSize, newLevel);
    }

    /** The counters and the control stack follow the shorter trail. */
    method ResetLevel(assignedSize: nat, newLevel: nat)
      requires assignedSize <= |trail| && newLevel < |control|
      modifies this`propagated, this`propagated2, this`noConflictUntil, this`propergated, this`control, this`level
      ensures propagated <= |trail| && propagated2 <= |trail| && noConflictUntil <= |trail| && propergated == 0
      ensures propagated == Min(old(propagated), assignedSize) && propagated2 == Min(old(propagated2), assignedSize)
      ensures noConflictUntil == Min(old(noConflictUntil), assignedSize)
      ensures control == old(control)[..newLevel+1] && level == newLevel
    {
      propagated := Min(propagated, assignedSize);
      propagated2 := Min(propagated2, assignedSize);
      noConflictUntil := Min(noConflictUntil, assignedSize);
      propergated := 0;
      control := control[..newLevel+1];
      level := newLevel;
    }

    /** `next_decision_variable_with_best_score`: drop assigned variables from
        the heap until its maximum is unassigned. */
    method NextWithBestScore(less: Order) returns (res: nat)
      requires StrictWeak(less) && Valid(less) && exists v :: v in queue.order && v !in vals
      modifies scores
      ensures Valid(less) && res in queue.order && res !in vals
      ensures forall v: nat :: v in queue.order && v !in vals ==> !less(res, v)
    {
      hide StrictWeak, LinkedAs, Stamped, PointerOk, HeapOrder.Heaped, Heap.Mutual, Trailed, Controlled;
      SomeInHeap(less);
      res := scores.Front(less);
      while res in vals
        invariant Valid(less) && scores.items != [] && res == scores.items[0]
        invariant res in scores.pos && forall x :: x in scores.pos ==> !less(res, x)
        decreases |scores.items|
      {
        var dropped := scores.PopFront(less);
        SomeInHeap(less);
        res := scores.Front(less);
      }
    }

    lemma SomeInHeap(less: Order)
      requires queue.Valid(vals) && Everywhere(queue.order, vals, scores.pos) && scores.Valid(less)
      requires exists v :: v in queue.order && v !in vals
      ensures scores.items != []
    {
      hide LinkAt;
      var v: int :| v in queue.order && v !in vals;
      PositiveOrder(queue.order, queue.prev, queue.next, queue.first, queue.last);
      var n: nat := v;
      assert n in scores.pos;
    }
  }

  lemma ControlBounds(trail: seq<Lit>, levels: map<int, nat>, control: seq<nat>, b: nat)
    requires Controlled(trail, levels, control) && b + 1 < |control|
    ensures control[b+1] <= |trail|
    ensures forall k :: 0 <= k < control[b+1] ==> Var(trail[k]) in levels && levels[Var(trail[k])] <= b
  {
  }

  lemma CompactNext(trail0: seq<Lit>, vals0: map<int, bool>, levels: map<int, nat>, b: nat, i: nat, j: nat,
                    trail: seq<Lit>, pos: map<int, nat>, vals: map<int, bool>)
    requires Compacting(trail0, vals0, levels, b, i, j, trail, pos, vals) && i < |trail0|
    ensures trail[i] == trail0[i] && Var(trail[i]) in vals
  {
    assert trail[i..][0] == trail0[i..][0] && OnTrail(trail, pos, vals, levels, i);
  }

  lemma TrailLevel(trail: seq<Lit>, pos: map<int, nat>, vals: map<int, bool>, levels: map<int, nat>, i: nat)
    requires Trailed(trail, pos, vals, levels) && i < |trail|
    ensures Var(trail[i]) in levels
  {
    assert OnTrail(trail, pos, vals, levels, i);
  }
}
