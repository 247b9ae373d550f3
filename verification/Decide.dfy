/** The constraint part of `decide`: one pass over the literals rotates the
    array while it looks for a true one (decide.cpp). */
module Decide {
  import opened Logic
  import opened Clauses

  datatype Outcome = AlreadySatisfied(literal: int) | DecideOn(literal: int) | Failing

  ghost predicate Literals(s: seq<int>) {
    forall i :: 0 <= i < |s| ==> s[i] != 0
  }

  ghost predicate NoneTrue(s: seq<int>, n: nat, vals: map<int, bool>)
    requires n <= |s| && Literals(s)
  {
    forall k :: 0 <= k < n ==> Val(s[k], vals) <= 0
  }

  ghost predicate FirstTrue(s: seq<int>, i: nat, vals: map<int, bool>, l: int)
    requires Literals(s)
  {
    i < |s| && s[i] == l && NoneTrue(s, i, vals) && Val(s[i], vals) > 0
  }

  /** `best` is the unassigned literal of the highest key among the first `n`. */
  ghost predicate BestOpen(s: seq<int>, n: nat, vals: map<int, bool>, key: Lit -> int, best: int)
    requires n <= |s| && Literals(s)
  {
    && (best == 0 ==> forall k :: 0 <= k < n ==> Val(s[k], vals) != 0)
    && (best != 0 ==> best in s[..n] && Val(best, vals) == 0)
    && (best != 0 ==> forall k :: 0 <= k < n && Val(s[k], vals) == 0 ==> key(s[k]) <= key(best))
  }

  /** The first `n` literals have moved one place to the right. */
  ghost predicate Shifted(now: seq<int>, s: seq<int>, n: nat) {
    && |now| == |s| && n <= |s|
    && (forall k :: 0 <= k < n ==> now[k] == if k == 0 then 0 else s[k-1])
    && (forall k :: n <= k < |s| ==> now[k] == s[k])
  }

  /** A true literal of the constraint moves to its front.  Without one the
      constraint is as before, and the best unassigned literal is decided. */
  method DecideConstraint(constraint: array<int>, vals: map<int, bool>, key: Lit -> int) returns (outcome: Outcome)
    requires constraint.Length > 0 && Literals(constraint[..])
    modifies constraint
    ensures outcome.AlreadySatisfied? ==>
      exists i ::
        && FirstTrue(old(constraint[..]), i, vals, outcome.literal)
        && constraint[..] == MoveToFront(old(constraint[..]), i)
    ensures !outcome.AlreadySatisfied? ==>
      constraint[..] == old(constraint[..]) && NoneTrue(constraint[..], constraint.Length, vals)
    ensures outcome.DecideOn? ==>
      outcome.literal != 0 && BestOpen(constraint[..], constraint.Length, vals, key, outcome.literal)
    ensures outcome.Failing? ==> BestOpen(constraint[..], constraint.Length, vals, key, 0)
  {
    hide Shifted, NoneTrue, BestOpen, MoveToFront, FirstTrue;
    ghost var s := constraint[..];
    var unassignedLit: int, previousLit: int := 0, 0;
    var size := constraint.Length;
    NothingSeen(s, vals, key);
    var i := 0;
    while i != size
      invariant 0 <= i <= size && Shifted(constraint[..], s, i)
      invariant previousLit == if i == 0 then 0 else s[i-1]
      invariant NoneTrue(s, i, vals) && BestOpen(s, i, vals, key, unassignedLit)
    {
      ShiftMore(constraint[..], s, i);
      var lit: Lit := constraint[i];
      ghost var before := constraint[..];
      constraint[i] := previousLit;
      assert constraint[..] == before[i := previousLit];
      previousLit := lit;
      var tmp := Val(lit, vals);
      if tmp > 0 {
        ghost var shifted := constraint[..];
        constraint[0] := lit;
        assert constraint[..] == shifted[0 := lit];
        FrontShifted(shifted, s, i, vals);
        return AlreadySatisfied(lit);
      }
      SeenMore(s, i, vals, key, unassignedLit);
      if tmp == 0 && (unassignedLit == 0 || key(lit) > key(unassignedLit)) {
        unassignedLit := lit;
      }
      i := i + 1;
    }
    RotateBack(constraint, previousLit, s);
    return if unassignedLit != 0 then DecideOn(unassignedLit) else Failing;
  }

  lemma NothingSeen(s: seq<int>, vals: map<int, bool>, key: Lit -> int)
    requires Literals(s)
    ensures Shifted(s, s, 0) && NoneTrue(s, 0, vals) && BestOpen(s, 0, vals, key, 0)
  {
  }

  lemma ShiftMore(now: seq<int>, s: seq<int>, i: nat)
    requires Shifted(now, s, i) && i < |s|
    ensures |now| == |s| && now[i] == s[i]
    ensures Shifted(now[i := if i == 0 then 0 else s[i-1]], s, i + 1)
  {
  }

  lemma FrontShifted(now: seq<int>, s: seq<int>, i: nat, vals: map<int, bool>)
    requires i < |s| && Literals(s) && Shifted(now, s, i + 1) && NoneTrue(s, i, vals) && Val(s[i], vals) > 0
    ensures |now| == |s| && now[0 := s[i]] == MoveToFront(s, i) && FirstTrue(s, i, vals, s[i])
  {
  }

  lemma SeenMore(s: seq<int>, i: nat, vals: map<int, bool>, key: Lit -> int, best: int)
    requires i < |s| && Literals(s) && NoneTrue(s, i, vals) && BestOpen(s, i, vals, key, best)
    requires Val(s[i], vals) <= 0
    ensures NoneTrue(s, i + 1, vals)
    ensures BestOpen(s, i + 1, vals, key,
      if Val(s[i], vals) == 0 && (best == 0 || key(s[i]) > key(best)) then s[i] else best)
  {
    assert s[..i+1] == s[..i] + [s[i]];
  }

  method RotateBack(constraint: array<int>, previousLit: int, ghost s: seq<int>)
    requires constraint.Length > 0 && Shifted(constraint[..], s, constraint.Length) && previousLit == s[|s|-1]
    modifies constraint
    ensures constraint[..] == s
  {
    var size := constraint.Length;
    for i := 0 to size - 1
      invariant forall k :: 0 <= k < i ==> constraint[k] == s[k]
      invariant forall k :: 0 < k && i <= k < size ==> constraint[k] == s[k-1]
    {
      constraint[i] := constraint[i+1];
    }
    constraint[size - 1] := previousLit;
  }
}
