/** Backtracking over a trail that need not be sorted by level: literals of
    lower levels are kept in place and moved together (backtrack.cpp). */
module TrailCompaction {
  import opened Logic
  import opened Clauses

  /** Trail, positions and values describe one assignment. */
  ghost predicate Trailed(trail: seq<Lit>, pos: map<int, nat>, vals: map<int, bool>, levels: map<int, nat>) {
    && (forall v :: v in vals ==> v in pos && pos[v] < |trail| && Var(trail[pos[v]]) == v)
    && (forall i :: 0 <= i < |trail| ==> OnTrail(trail, pos, vals, levels, i))
  }

  predicate OnTrail(trail: seq<Lit>, pos: map<int, nat>, vals: map<int, bool>, levels: map<int, nat>, i: nat)
    requires i < |trail|
  {
    var v := Var(trail[i]);
    v in vals && vals[v] == (trail[i] > 0) && v in pos && pos[v] == i && v in levels
  }

  /** The decision levels: `control[k]` is the trail size when level `k` was
      opened, and everything assigned by then is of a lower level. */
  ghost predicate Controlled(trail: seq<Lit>, levels: map<int, nat>, control: seq<nat>) {
    && control != []
    && (forall i :: 0 <= i < |trail| ==> Var(trail[i]) in levels && levels[Var(trail[i])] < |control|)
    && (forall k :: 1 <= k < |control| ==> control[k] <= |trail|)
    && (forall j, k :: 1 <= j < k < |control| ==> control[j] <= control[k])
    && (forall k, i :: 1 <= k < |control| && 0 <= i < control[k] ==> levels[Var(trail[i])] < k)
  }

  /** The literals of level `b` and below, in trail order. */
  function Kept(trail: seq<Lit>, levels: map<int, nat>, b: nat): seq<Lit> {
    if trail == [] then []
    else
      var l := trail[|trail|-1];
      Kept(trail[..|trail|-1], levels, b) + if Var(l) in levels && levels[Var(l)] <= b then [l] else []
  }

  /** Exactly the positions on levels up to `b` are kept, in their order. */
  lemma {:induction false} KeptAt(trail: seq<Lit>, levels: map<int, nat>, b: nat) returns (ps: seq<nat>)
    ensures |ps| == |Kept(trail, levels, b)|
    ensures forall i :: 0 <= i < |ps| ==> ps[i] < |trail| && trail[ps[i]] == Kept(trail, levels, b)[i]
    ensures forall i, j :: 0 <= i < j < |ps| ==> ps[i] < ps[j]
    ensures forall k :: 0 <= k < |trail| ==> (k in ps <==> Var(trail[k]) in levels && levels[Var(trail[k])] <= b)
  {
    ps := [];
    if trail != [] {
      var k := |trail| - 1;
      ps := KeptAt(trail[..k], levels, b);
      if Var(trail[k]) in levels && levels[Var(trail[k])] <= b {
        ps := ps + [k];
      }
      forall j | 0 <= j < |trail|
        ensures j in ps <==> Var(trail[j]) in levels && levels[Var(trail[j])] <= b
      {
        if j < k {
          assert trail[..k][j] == trail[j];
        }
      }
    }
  }

  function ValuesUpTo(vals: map<int, bool>, levels: map<int, nat>, b: nat): map<int, bool> {
    map v | v in vals && v in levels && levels[v] <= b :: vals[v]
  }

  /** The first `i` literals of `trail0` have been treated, `j` of them kept. */
  ghost predicate Compacting(trail0: seq<Lit>, vals0: map<int, bool>, levels: map<int, nat>, b: nat, i: nat, j: nat,
                             trail: seq<Lit>, pos: map<int, nat>, vals: map<int, bool>)
  {
    && j <= i <= |trail0| == |trail|
    && trail[..j] == Kept(trail0[..i], levels, b) && trail[i..] == trail0[i..]
    && (forall k :: 0 <= k < j || i <= k < |trail| ==> OnTrail(trail, pos, vals, levels, k))
    && (forall v :: v in vals ==> v in vals0 && vals[v] == vals0[v])
    && (forall v :: v in vals0 && v in levels && levels[v] <= b ==> v in vals)
    && (forall v :: v in vals ==> v in pos && (pos[v] < j || i <= pos[v] < |trail|) && Var(trail[pos[v]]) == v)
  }

  /** A prefix of kept literals needs no treatment. */
  lemma {:induction false} KeptAll(trail: seq<Lit>, levels: map<int, nat>, b: nat)
    requires forall i :: 0 <= i < |trail| ==> Var(trail[i]) in levels && levels[Var(trail[i])] <= b
    ensures Kept(trail, levels, b) == trail
  {
    if trail != [] {
      KeptAll(trail[..|trail|-1], levels, b);
    }
  }

  lemma {:induction false} KeptLevels(trail: seq<Lit>, levels: map<int, nat>, b: nat)
    ensures forall l :: l in Kept(trail, levels, b) <==> l in trail && Var(l) in levels && levels[Var(l)] <= b
  {
    if trail != [] {
      KeptLevels(trail[..|trail|-1], levels, b);
      assert trail == trail[..|trail|-1] + [trail[|trail|-1]];
    }
  }

  lemma CompactStart(trail: seq<Lit>, pos: map<int, nat>, vals: map<int, bool>, levels: map<int, nat>, b: nat, i: nat)
    requires Trailed(trail, pos, vals, levels) && i <= |trail|
    requires forall k :: 0 <= k < i ==> Var(trail[k]) in levels && levels[Var(trail[k])] <= b
    ensures Compacting(trail, vals, levels, b, i, i, trail, pos, vals)
  {
    forall k | 0 <= k < i
      ensures Var(trail[..i][k]) in levels && levels[Var(trail[..i][k])] <= b
    {
      assert OnTrail(trail, pos, vals, levels, k);
    }
    KeptAll(trail[..i], levels, b);
  }

  lemma CompactDrop(trail0: seq<Lit>, vals0: map<int, bool>, levels: map<int, nat>, b: nat, i: nat, j: nat,
                    trail: seq<Lit>, pos: map<int, nat>, vals: map<int, bool>)
    requires Compacting(trail0, vals0, levels, b, i, j, trail, pos, vals) && i < |trail0|
    requires var v := Var(trail0[i]); v in levels && levels[v] > b
    ensures trail[i] == trail0[i]
    ensures Compacting(trail0, vals0, levels, b, i + 1, j, trail, pos, vals - {Var(trail0[i])})
  {
    var v := Var(trail0[i]);
    assert trail[i..][0] == trail0[i..][0];
    assert trail0[..i+1][..i] == trail0[..i];
    assert trail[i+1..] == trail[i..][1..] && trail0[i+1..] == trail0[i..][1..];
    assert OnTrail(trail, pos, vals, levels, i);
    forall k | 0 <= k < j || i + 1 <= k < |trail|
      ensures OnTrail(trail, pos, vals - {v}, levels, k)
    {
      assert OnTrail(trail, pos, vals, levels, k);
    }
  }

  lemma CompactKeep(trail0: seq<Lit>, vals0: map<int, bool>, levels: map<int, nat>, b: nat, i: nat, j: nat,
                    trail: seq<Lit>, pos: map<int, nat>, vals: map<int, bool>)
    requires Compacting(trail0, vals0, levels, b, i, j, trail, pos, vals) && i < |trail0|
    requires var v := Var(trail0[i]); v in levels && levels[v] <= b
    ensures trail[i] == trail0[i] && j < |trail|
    ensures Compacting(trail0, vals0, levels, b, i + 1, j + 1, trail[j := trail0[i]], pos[Var(trail0[i]) := j], vals)
  {
    var l := trail0[i];
    var now, pos1 := trail[j := l], pos[Var(l) := j];
    assert trail[i..][0] == trail0[i..][0];
    assert trail0[..i+1][..i] == trail0[..i];
    assert trail[i+1..] == trail[i..][1..] && trail0[i+1..] == trail0[i..][1..];
    assert now[i+1..] == trail[i+1..];
    assert now[..j+1] == trail[..j] + [l];
    assert OnTrail(trail, pos, vals, levels, i);
    forall k | 0 <= k < j + 1 || i + 1 <= k < |now|
      ensures OnTrail(now, pos1, vals, levels, k)
    {
      assert k != j ==> OnTrail(trail, pos, vals, levels, k);
    }
  }

  lemma CompactDone(trail0: seq<Lit>, pos0: map<int, nat>, vals0: map<int, bool>, levels: map<int, nat>, b: nat, j: nat,
                    trail: seq<Lit>, pos: map<int, nat>, vals: map<int, bool>)
    requires Trailed(trail0, pos0, vals0, levels)
    requires Compacting(trail0, vals0, levels, b, |trail0|, j, trail, pos, vals)
    ensures trail[..j] == Kept(trail0, levels, b) && vals == ValuesUpTo(vals0, levels, b)
    ensures Trailed(trail[..j], pos, vals, levels)
  {
    hide Kept;
    assert trail0[..|trail0|] == trail0;
    var less := trail[..j];
    KeptLevels(trail0, levels, b);
    forall k | 0 <= k < j
      ensures OnTrail(less, pos, vals, levels, k)
    {
      assert OnTrail(trail, pos, vals, levels, k);
    }
    forall v
      ensures v in vals <==> v in vals0 && v in levels && levels[v] <= b
    {
      if v in vals {
        assert pos[v] < j && less[pos[v]] in less;
      }
    }
    SameValues(vals, vals0, levels, b);
  }

  lemma SameValues(vals: map<int, bool>, vals0: map<int, bool>, levels: map<int, nat>, b: nat)
    requires forall v :: v in vals <==> v in vals0 && v in levels && levels[v] <= b
    requires forall v :: v in vals ==> v in vals0 && vals[v] == vals0[v]
    ensures vals == ValuesUpTo(vals0, levels, b)
  {
    var less := ValuesUpTo(vals0, levels, b);
    forall v
      ensures v in vals <==> v in less
      ensures v in vals ==> vals[v] == less[v]
    {
    }
  }
}
