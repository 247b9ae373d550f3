/** What propagation does to the levels of the graph: it adds forced literals to
    the current one only, and which ones does not depend on the order in which
    the clauses are visited. */
module SearchLevels {
  import opened Logic
  import opened ImplicationGraph
  import opened SearchState
  import opened SearchSteps

  /** `h` is `g` with forced literals added on level `lv`. */
  ghost predicate Adds(g: Graph, h: Graph, lv: nat)
    requires Indexed(g) && Indexed(h)
  {
    && (forall v :: v in g.level ==>
          v in h.level && h.level[v] == g.level[v] && h.value[v] == g.value[v] && h.reason[v] == g.reason[v])
    && (forall v :: v in h.level && v !in g.level ==> h.level[v] == lv && h.reason[v].Some?)
  }

  lemma {:induction false} PassAdds(f: seq<Clause>, i: nat, g: Graph, lv: nat, changed: bool)
    requires i <= |f| && Searching(f, g, lv)
    ensures var h := Pass(f, i, g, lv, changed).g; Indexed(g) && Indexed(h) && Adds(g, h, lv)
    decreases |f| - i
  {
    hide Searching, StatusOf, Sound, Indexed;
    SearchingIndexed(f, g, lv);
    if i < |f| {
      PassKeeps(f, i, g, lv);
      match StatusOf(f[i], g.value) {
        case Conflict =>
        case Unit(l) =>
          var h := Extend(g, l, lv, Some(f[i]));
          SearchingIndexed(f, h, lv);
          PassAdds(f, i + 1, h, lv, true);
        case _ => PassAdds(f, i + 1, g, lv, changed);
      }
    }
  }

  lemma SearchingIndexed(f: seq<Clause>, g: Graph, lv: nat)
    requires Searching(f, g, lv)
    ensures Indexed(g) && g.value.Keys == g.level.Keys == g.reason.Keys
  {
  }

  lemma {:induction false} PropagateAdds(f: seq<Clause>, g: Graph, lv: nat)
    requires Searching(f, g, lv)
    ensures var h := Propagate(f, g, lv).g; Indexed(g) && Indexed(h) && Adds(g, h, lv)
    decreases VarsOf(f) - g.value.Keys
  {
    hide Searching, Pass, Indexed;
    var p := Pass(f, 0, g, lv, false);
    PassGrows(f, 0, g, lv, false);
    PassAdds(f, 0, g, lv, false);
    if p.conflict.None? && p.changed {
      PropagateAdds(f, p.g, lv);
    }
  }

  /** Lower levels do not notice. */
  lemma AddsQuietBelow(f: seq<Clause>, g: Graph, h: Graph, lv: nat)
    requires Indexed(g) && Indexed(h) && Adds(g, h, lv) && QuietBelow(f, g, lv)
    ensures QuietBelow(f, h, lv)
  {
    forall k, c | 0 <= k < lv && c in f
      ensures QuietAt(c, h, k)
    {
      assert AllQuietAt(f, g, k);
      AddsQuiet(c, g, h, lv, k);
    }
  }

  lemma AddsQuiet(c: Clause, g: Graph, h: Graph, lv: nat, k: nat)
    requires Indexed(g) && Indexed(h) && Adds(g, h, lv) && QuietAt(c, g, k) && k < lv
    ensures QuietAt(c, h, k)
  {
    if x :| x in c && IsTrue(x, g) && AssignedUpTo(x, g, k) {
      assert IsTrue(x, h) && AssignedUpTo(x, h, k);
    } else {
      var i, j :| 0 <= i < j < |c| && !AssignedUpTo(c[i], g, k) && !AssignedUpTo(c[j], g, k);
      assert !AssignedUpTo(c[i], h, k) && !AssignedUpTo(c[j], h, k);
    }
  }

  // ------------------------------------------------------------ when it settles

  ghost predicate TwoOpen(c: Clause, value: map<int, bool>) {
    exists i, j :: 0 <= i < j < |c| && Var(c[i]) !in value && Var(c[j]) !in value
  }

  lemma TwoOpenMore(d: Clause, l: Lit, value: map<int, bool>)
    ensures TwoOpen(d + [l], value) <==>
      TwoOpen(d, value) || (Var(l) !in value && exists x :: x in d && Var(x) !in value)
  {
    var c := d + [l];
    if TwoOpen(d, value) {
      var i, j :| 0 <= i < j < |d| && Var(d[i]) !in value && Var(d[j]) !in value;
      assert c[i] == d[i] && c[j] == d[j];
    }
    if x :| Var(l) !in value && x in d && Var(x) !in value {
      var i :| 0 <= i < |d| && d[i] == x;
      assert c[i] == x && c[|d|] == l;
    }
    if TwoOpen(c, value) && !TwoOpen(d, value) {
      var i, j :| 0 <= i < j < |c| && Var(c[i]) !in value && Var(c[j]) !in value;
      assert c[i] == d[i] && d[i] in d && j == |d|;
    }
  }

  lemma {:induction false} OpenTwo(c: Clause, value: map<int, bool>)
    ensures |OpenLits(c, value)| >= 2 <==> TwoOpen(c, value)
  {
    hide TwoOpen;
    if c != [] {
      var n := |c| - 1;
      OpenTwo(c[..n], value);
      OpenLitsMembers(c[..n], value);
      assert c == c[..n] + [c[n]];
      TwoOpenMore(c[..n], c[n], value);
      OpenLast(c, value);
    } else {
      NoneOpen(value);
    }
  }

  lemma OpenLast(c: Clause, value: map<int, bool>)
    requires c != []
    ensures var d := OpenLits(c[..|c|-1], value);
      && |OpenLits(c, value)| == |d| + (if Var(c[|c|-1]) in value then 0 else 1)
      && (|d| >= 1 <==> exists x :: x in d)
  {
    var d := OpenLits(c[..|c|-1], value);
    if d != [] {
      assert d[0] in d;
    }
  }

  lemma NoneOpen(value: map<int, bool>)
    ensures !TwoOpen([], value)
  {
  }

  lemma SettledStatus(c: Clause, value: map<int, bool>)
    ensures Settled(c, value) <==> StatusOf(c, value).Satisfied? || StatusOf(c, value).Undefined?
  {
    OpenTwo(c, value);
  }

  lemma {:induction false} PassSettles(f: seq<Clause>, i: nat, g: Graph, lv: nat, changed: bool)
    requires i <= |f| && Searching(f, g, lv)
    ensures var p := Pass(f, i, g, lv, changed);
      && (changed ==> p.changed || p.conflict.Some?)
      && (p.conflict.None? && !p.changed ==> p.g == g && forall k :: i <= k < |f| ==> Settled(f[k], g.value))
    decreases |f| - i
  {
    hide Searching, StatusOf, Sound, Settled;
    if i < |f| {
      PassKeeps(f, i, g, lv);
      SettledStatus(f[i], g.value);
      match StatusOf(f[i], g.value) {
        case Conflict =>
        case Unit(l) => PassSettles(f, i + 1, Extend(g, l, lv, Some(f[i])), lv, true);
        case _ => PassSettles(f, i + 1, g, lv, changed);
      }
    }
  }

  /** Without a conflict nothing is left to propagate. */
  lemma {:induction false} PropagateSettles(f: seq<Clause>, g: Graph, lv: nat)
    requires Searching(f, g, lv) && Propagate(f, g, lv).conflict.None?
    ensures forall c :: c in f ==> Settled(c, Propagate(f, g, lv).g.value)
    decreases VarsOf(f) - g.value.Keys
  {
    hide Searching, Pass, Settled;
    var p := Pass(f, 0, g, lv, false);
    PassGrows(f, 0, g, lv, false);
    PassSettles(f, 0, g, lv, false);
    if p.conflict.None? && p.changed {
      PropagateSettles(f, p.g, lv);
    }
  }

  /** Where everything is settled, propagation does nothing. */
  lemma SettledIsIdle(f: seq<Clause>, g: Graph, lv: nat)
    requires Searching(f, g, lv) && forall c :: c in f ==> Settled(c, g.value)
    ensures Propagate(f, g, lv) == Propagation(g, None, false)
  {
    hide Searching, StatusOf, Settled;
    forall k | 0 <= k < |f|
      ensures var s := StatusOf(f[k], g.value); s.Satisfied? || s.Undefined?
    {
      assert f[k] in f;
      SettledStatus(f[k], g.value);
    }
    PassSkips(f, 0, |f|, g, lv, false);
  }

  // ---------------------------------------------------------- the same once more

  /** All of `g` is in `r`, on the same levels. */
  ghost predicate Inside(g: Graph, r: Graph)
    requires Indexed(g) && Indexed(r)
  {
    forall v :: v in g.level ==> v in r.level && r.level[v] == g.level[v] && r.value[v] == g.value[v]
  }

  /** `g` has all of `r` below level `k`, and its decisions up to level `k`. */
  ghost predicate Covers(g: Graph, r: Graph, k: nat)
    requires Indexed(g) && Indexed(r)
  {
    && (forall v :: v in r.level && r.level[v] < k ==> v in g.level)
    && (forall v :: v in r.level && r.level[v] <= k && r.reason[v].None? ==> v in g.level && g.reason[v].None?)
  }

  /** What is unit inside a quiet graph is true there. */
  lemma UnitInside(c: Clause, g: Graph, r: Graph, k: nat, u: Lit)
    requires Indexed(g) && Indexed(r) && Inside(g, r) && (forall v :: v in g.level ==> g.level[v] <= k)
    requires QuietAt(c, r, k) && UnitWith(c, g.value, u)
    ensures IsTrue(u, r) && AssignedUpTo(u, r, k)
  {
    var i :| 0 <= i < |c| && c[i] == u && Var(u) !in g.value &&
      forall j :: 0 <= j < |c| && j != i ==> FalseIn(c[j], g.value);
    assert forall j :: 0 <= j < |c| && j != i ==> IsFalse(c[j], r) && AssignedUpTo(c[j], r, k);
  }

  lemma FalseInside(c: Clause, g: Graph, r: Graph, k: nat)
    requires Indexed(g) && Indexed(r) && Inside(g, r) && (forall v :: v in g.level ==> g.level[v] <= k)
    requires QuietAt(c, r, k)
    ensures !Falsified(Lits(c), g)
  {
    if x :| x in c && IsTrue(x, r) && AssignedUpTo(x, r, k) {
      assert x in Lits(c) && !IsFalse(x, g);
    } else {
      var i, j :| 0 <= i < j < |c| && !AssignedUpTo(c[i], r, k) && !AssignedUpTo(c[j], r, k);
      assert c[i] in Lits(c) && !IsFalse(c[i], g);
    }
  }

  lemma InsideMore(g: Graph, r: Graph, k: nat, l: Lit, c: Clause)
    requires Indexed(g) && Indexed(r) && Inside(g, r) && Covers(g, r, k) && Indexed(Extend(g, l, k, Some(c)))
    requires Var(l) !in g.value && IsTrue(l, r) && AssignedUpTo(l, r, k)
    ensures Inside(Extend(g, l, k, Some(c)), r) && Covers(Extend(g, l, k, Some(c)), r, k)
  {
  }

  lemma {:induction false} PassInside(f: seq<Clause>, i: nat, g: Graph, k: nat, changed: bool, r: Graph)
    requires i <= |f| && Searching(f, g, k) && Indexed(g) && Indexed(r) && AllQuietAt(f, r, k)
    requires Inside(g, r) && Covers(g, r, k)
    ensures var p := Pass(f, i, g, k, changed);
      p.conflict.None? && Indexed(p.g) && Inside(p.g, r) && Covers(p.g, r, k)
    decreases |f| - i
  {
    hide Searching, StatusOf, Sound, Indexed, QuietAt, Falsified, UnitWith, Inside, Covers, Extend;
    if i < |f| {
      PassKeeps(f, i, g, k);
      SearchingDomains(f, g, k);
      var c := f[i];
      assert c in f;
      FalseInside(c, g, r, k);
      match StatusOf(c, g.value) {
        case Conflict =>
          ConflictStatus(c, g);
        case Unit(l) =>
          var h := Extend(g, l, k, Some(c));
          SearchingIndexed(f, h, k);
          UnitStatus(c, g.value);
          UnitInside(c, g, r, k, l);
          InsideMore(g, r, k, l, c);
          PassInside(f, i + 1, h, k, true, r);
        case _ => PassInside(f, i + 1, g, k, changed, r);
      }
    }
  }

  lemma {:induction false} PropagateInside(f: seq<Clause>, g: Graph, k: nat, r: Graph)
    requires Searching(f, g, k) && Indexed(g) && Indexed(r) && AllQuietAt(f, r, k)
    requires Inside(g, r) && Covers(g, r, k)
    ensures var p := Propagate(f, g, k);
      p.conflict.None? && Indexed(p.g) && Inside(p.g, r) && Covers(p.g, r, k)
    decreases VarsOf(f) - g.value.Keys
  {
    hide Searching, Pass, Indexed, AllQuietAt, Inside, Covers;
    var p := Pass(f, 0, g, k, false);
    PassGrows(f, 0, g, k, false);
    PassInside(f, 0, g, k, false, r);
    if p.conflict.None? && p.changed {
      PropagateInside(f, p.g, k, r);
    }
  }

  /** A graph in which nothing is left to propagate has all that follows from it. */
  lemma {:induction false} SettledReaches(f: seq<Clause>, g: Graph, r: Graph, k: nat, i: nat)
    requires Indexed(g) && WellFormed(r) && ReasonsFrom(r, f) && ReasonsOnce(r)
    requires Inside(g, r) && Covers(g, r, k) && forall c :: c in f ==> Settled(c, g.value)
    requires i < |r.trail| && r.level[Var(r.trail[i])] <= k
    ensures Var(r.trail[i]) in g.level
    decreases i
  {
    var t := r.trail[i];
    if r.level[Var(t)] == k && r.reason[Var(t)].Some? {
      var c := r.reason[Var(t)].value;
      assert Justified(r, i) && ReasonOnce(r, i);
      forall l | l in c && l != t
        ensures IsFalse(l, g)
      {
        assert FalseBefore(l, r, i, k);
        SettledReaches(f, g, r, k, r.pos[Var(l)]);
      }
      ForcedReached(c, g, r, t);
    }
  }

  lemma ForcedReached(c: Clause, g: Graph, r: Graph, t: Lit)
    requires Indexed(g) && Indexed(r) && Inside(g, r) && Settled(c, g.value) && OnceIn(c, t) && IsTrue(t, r)
    requires forall l :: l in c && l != t ==> IsFalse(l, g)
    ensures Var(t) in g.level
  {
    if Var(t) !in g.level {
      forall i | 0 <= i < |c| && Var(c[i]) !in g.value
        ensures c[i] == t
      {
        assert c[i] in c;
      }
    }
  }

  /** Propagation gets back all of a quiet level from its decision. */
  lemma PropagateAgain(f: seq<Clause>, g: Graph, k: nat, r: Graph, f0: seq<Clause>, lv: nat)
    requires Searching(f, g, k) && Searching(f0, r, lv) && (forall c :: c in f0 ==> c in f)
    requires Indexed(g) && Indexed(r) && AllQuietAt(f, r, k)
    requires Inside(g, r) && Covers(g, r, k)
    ensures var p := Propagate(f, g, k);
      && p.conflict.None? && Indexed(p.g) && Inside(p.g, r) && Covers(p.g, r, k)
      && forall v :: v in r.level && r.level[v] <= k ==> v in p.g.level
  {
    hide Propagate, Inside, Covers, AllQuietAt, Sound, Settled, Opened, Monotone, Justified, ReasonsOnce;
    PropagateInside(f, g, k, r);
    PropagateSettles(f, g, k);
    var h := Propagate(f, g, k).g;
    assert WellFormed(r) && ReasonsFrom(r, f0);
    forall v | v in r.level && r.level[v] <= k
      ensures v in h.level
    {
      SettledReaches(f, h, r, k, r.pos[v]);
    }
  }
}
