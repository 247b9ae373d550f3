/** What the search loop of the Python solvers keeps true, on values: the
    formula, the implication graph and the decision level. */
module SearchState {
  import opened Logic
  import opened ImplicationGraph

  /** The graph after assigning `l` at level `lv` for reason `r`. */
  function Extend(g: Graph, l: Lit, lv: nat, r: Option<Clause>): Graph {
    Graph(
      g.trail + [l],
      g.value[Var(l) := l > 0],
      g.level[Var(l) := lv],
      g.reason[Var(l) := r],
      g.pos[Var(l) := |g.trail|])
  }

  ghost predicate Monotone(g: Graph)
    requires Indexed(g)
  {
    forall i, j :: 0 <= i < j < |g.trail| ==> g.level[Var(g.trail[i])] <= g.level[Var(g.trail[j])]
  }

  ghost predicate Opened(g: Graph, k: nat) {
    exists v :: v in g.level && g.level[v] == k
  }

  predicate OnceIn(c: Clause, l: Lit) {
    forall i, j :: 0 <= i < j < |c| ==> !(c[i] == l && c[j] == l)
  }

  /** A forced literal stands at one position of its reason only, since a
      clause that repeats its only unassigned literal does not propagate. */
  ghost predicate ReasonOnce(g: Graph, i: nat)
    requires i < |g.trail| && Indexed(g)
  {
    var r := g.reason[Var(g.trail[i])];
    r.Some? ==> OnceIn(r.value, g.trail[i])
  }

  ghost predicate ReasonsOnce(g: Graph)
    requires Indexed(g)
  {
    forall i :: 0 <= i < |g.trail| ==> ReasonOnce(g, i)
  }

  /** The trail is justified and sorted by level; levels `1..lv` are opened by
      a decision each, and level 0 holds none. */
  ghost predicate Searching(f: seq<Clause>, g: Graph, lv: nat) {
    && WellFormed(g) && ReasonsFrom(g, f) && Monotone(g) && ReasonsOnce(g)
    && (forall v :: v in g.level ==> g.level[v] <= lv)
    && (forall v :: v in g.reason && g.reason[v].None? ==> g.level[v] > 0)
    && (forall k :: 0 < k <= lv ==> Opened(g, k))
    && g.level.Keys <= VarsOf(f)
  }

  predicate AssignedUpTo(l: Lit, g: Graph, k: nat) {
    Var(l) in g.level && g.level[Var(l)] <= k
  }

  /** Propagation has nothing left to do with `c` on level `k`: a literal of
      `c` is true there, or two of its positions are unassigned there. */
  ghost predicate QuietAt(c: Clause, g: Graph, k: nat) {
    || (exists l :: l in c && IsTrue(l, g) && AssignedUpTo(l, g, k))
    || (exists i, j :: 0 <= i < j < |c| && !AssignedUpTo(c[i], g, k) && !AssignedUpTo(c[j], g, k))
  }

  ghost predicate AllQuietAt(f: seq<Clause>, g: Graph, k: nat) {
    forall c :: c in f ==> QuietAt(c, g, k)
  }

  /** Every level below `lv` was left only when propagation had finished. */
  ghost predicate QuietBelow(f: seq<Clause>, g: Graph, lv: nat) {
    forall k :: 0 <= k < lv ==> AllQuietAt(f, g, k)
  }

  ghost predicate NonEmpty(f: seq<Clause>) {
    forall c :: c in f ==> c != []
  }

  /** An empty clause ends every pass, and is taken for no conflict: only without
      one are lower levels left when propagation has finished. */
  ghost predicate Quiet(f: seq<Clause>, g: Graph, lv: nat) {
    NonEmpty(f) ==> QuietBelow(f, g, lv)
  }

  /** No clause is empty or repeats a literal. */
  ghost predicate Proper(f: seq<Clause>) {
    NonEmpty(f) && forall c :: c in f ==> NoDuplicates(c)
  }

  // ------------------------------------------------------------- assignments

  lemma ExtendWellFormed(g: Graph, l: Lit, lv: nat, r: Option<Clause>)
    requires WellFormed(g) && Var(l) !in g.level
    requires match r
             case None => forall v :: v in g.level ==> g.level[v] != lv
             case Some(c) => l in c && forall k :: k in c && k != l ==> IsFalse(k, g) && AssignedUpTo(k, g, lv)
    ensures WellFormed(Extend(g, l, lv, r))
  {
    var h := Extend(g, l, lv, r);
    assert Indexed(h);
    forall i | 0 <= i < |h.trail|
      ensures Justified(h, i)
    {
      if i < |g.trail| {
        assert Justified(g, i) && h.trail[i] == g.trail[i];
      }
    }
  }

  lemma OpenedStays(g: Graph, l: Lit, lv: nat, r: Option<Clause>, k: nat)
    requires Var(l) !in g.level && (Opened(g, k) || k == lv)
    ensures Opened(Extend(g, l, lv, r), k)
  {
    var h := Extend(g, l, lv, r);
    assert h.level[Var(l)] == lv;
    if Opened(g, k) {
      var v :| v in g.level && g.level[v] == k;
      assert h.level[v] == k;
    }
  }

  lemma ExtendMonotone(g: Graph, l: Lit, lv: nat, r: Option<Clause>)
    requires Indexed(g) && Monotone(g) && Var(l) !in g.level && Indexed(Extend(g, l, lv, r))
    requires forall v :: v in g.level ==> g.level[v] <= lv
    ensures Monotone(Extend(g, l, lv, r))
  {
    var h := Extend(g, l, lv, r);
    forall i, j | 0 <= i < j < |h.trail|
      ensures h.level[Var(h.trail[i])] <= h.level[Var(h.trail[j])]
    {
      assert h.trail[i] == g.trail[i] && g.level[Var(g.trail[i])] <= lv;
    }
  }

  lemma ExtendOnce(g: Graph, l: Lit, lv: nat, r: Option<Clause>)
    requires Indexed(g) && ReasonsOnce(g) && Var(l) !in g.level && Indexed(Extend(g, l, lv, r))
    requires r.Some? ==> OnceIn(r.value, l)
    ensures ReasonsOnce(Extend(g, l, lv, r))
  {
    hide OnceIn;
    var h := Extend(g, l, lv, r);
    forall i | 0 <= i < |h.trail|
      ensures ReasonOnce(h, i)
    {
      if i < |g.trail| {
        assert ReasonOnce(g, i) && h.trail[i] == g.trail[i];
      }
    }
  }

  lemma ExtendKeeps(f: seq<Clause>, g: Graph, lv: nat, l: Lit, r: Clause)
    requires Searching(f, g, lv)
    requires Var(l) !in g.level && r in f && l in r && OnceIn(r, l)
    requires forall k :: k in r && k != l ==> IsFalse(k, g)
    ensures Searching(f, Extend(g, l, lv, Some(r)), lv)
  {
    hide Justified, Opened, Monotone, ReasonsOnce, OnceIn;
    ExtendWellFormed(g, l, lv, Some(r));
    ExtendMonotone(g, l, lv, Some(r));
    ExtendOnce(g, l, lv, Some(r));
    forall k | 0 < k <= lv
      ensures Opened(Extend(g, l, lv, Some(r)), k)
    {
      OpenedStays(g, l, lv, Some(r), k);
    }
    assert Var(l) in VarsOf(f);
  }

  ghost predicate UnitWith(c: Clause, value: map<int, bool>, u: Lit) {
    exists i :: 0 <= i < |c| && c[i] == u && Var(u) !in value &&
      forall j :: 0 <= j < |c| && j != i ==> FalseIn(c[j], value)
  }

  /** Nothing to propagate: a true literal, or two unassigned positions. */
  ghost predicate Settled(c: Clause, value: map<int, bool>) {
    || (exists l :: l in c && TrueIn(l, value))
    || (exists i, j :: 0 <= i < j < |c| && Var(c[i]) !in value && Var(c[j]) !in value)
  }

  lemma UnitKeeps(f: seq<Clause>, g: Graph, lv: nat, c: Clause, u: Lit)
    requires Searching(f, g, lv) && Quiet(f, g, lv)
    requires c in f && UnitWith(c, g.value, u)
    ensures Indexed(g) && Var(u) !in g.level && Var(u) in VarsOf(f)
    ensures Searching(f, Extend(g, u, lv, Some(c)), lv) && Quiet(f, Extend(g, u, lv, Some(c)), lv)
  {
    hide Justified, Opened, Monotone, QuietBelow, ReasonsOnce;
    assert u in c && Var(u) in VarsOf(f);
    ExtendKeeps(f, g, lv, u, c);
    if QuietBelow(f, g, lv) {
      ExtendQuietBelow(f, g, lv, u, lv, Some(c));
    }
  }

  lemma DecisionKeeps(f: seq<Clause>, g: Graph, lv: nat, l: Lit)
    requires Searching(f, g, lv)
    requires Var(l) !in g.level && Var(l) in VarsOf(f)
    ensures Searching(f, Extend(g, l, lv + 1, None), lv + 1)
  {
    hide Justified, Opened, Monotone, ReasonsOnce, VarsOf;
    var up := lv + 1;
    var h := Extend(g, l, up, None);
    ExtendWellFormed(g, l, up, None);
    ExtendMonotone(g, l, up, None);
    ExtendOnce(g, l, up, None);
    forall k | 0 < k <= up
      ensures Opened(h, k)
    {
      OpenedStays(g, l, up, None, k);
    }
  }

  lemma ExtendQuiet(c: Clause, g: Graph, k: nat, l: Lit, lv: nat, r: Option<Clause>)
    requires QuietAt(c, g, k) && k < lv && Var(l) !in g.level && g.value.Keys == g.level.Keys
    ensures QuietAt(c, Extend(g, l, lv, r), k)
  {
    var h := Extend(g, l, lv, r);
    if x :| x in c && IsTrue(x, g) && AssignedUpTo(x, g, k) {
      assert IsTrue(x, h) && AssignedUpTo(x, h, k);
    } else {
      var i, j :| 0 <= i < j < |c| && !AssignedUpTo(c[i], g, k) && !AssignedUpTo(c[j], g, k);
      assert !AssignedUpTo(c[i], h, k) && !AssignedUpTo(c[j], h, k);
    }
  }

  lemma ExtendQuietBelow(f: seq<Clause>, g: Graph, lv: nat, l: Lit, mine: nat, r: Option<Clause>)
    requires QuietBelow(f, g, lv) && lv <= mine && Var(l) !in g.level && g.value.Keys == g.level.Keys
    ensures QuietBelow(f, Extend(g, l, mine, r), lv)
  {
    forall k, c | 0 <= k < lv && c in f
      ensures QuietAt(c, Extend(g, l, mine, r), k)
    {
      assert AllQuietAt(f, g, k);
      ExtendQuiet(c, g, k, l, mine, r);
    }
  }

  // --------------------------------------------------------------- conflicts

  /** A conflict above level 0 has two literals on the conflict level: before
      the decision of that level its clause was quiet. */
  lemma ConflictReaches(c: Clause, g: Graph, lv: nat)
    requires lv > 0 && QuietAt(c, g, lv - 1) && Falsified(Lits(c), g)
    requires g.value.Keys == g.level.Keys && forall v :: v in g.level ==> g.level[v] <= lv
    ensures Reaches(Lits(c), g, lv)
  {
    assert forall l :: l in c ==> l in Lits(c);
    var i, j :| 0 <= i < j < |c| && !AssignedUpTo(c[i], g, lv - 1) && !AssignedUpTo(c[j], g, lv - 1);
    assert c[i] in Lits(c) && AtLevel(c[i], g, lv);
  }

  /** The reason at trail position `i` has another literal on level `lv`. */
  ghost predicate ReasonReaches(g: Graph, i: nat, lv: nat)
    requires i < |g.trail| && Indexed(g)
  {
    var r := g.reason[Var(g.trail[i])];
    r.Some? ==> exists y :: y in r.value && y != g.trail[i] && AtLevel(y, g, lv)
  }

  ghost predicate ReasonsReach(g: Graph, lv: nat)
    requires Indexed(g)
  {
    forall i :: 0 <= i < |g.trail| && AtLevel(g.trail[i], g, lv) ==> ReasonReaches(g, i, lv)
  }

  /** The same holds of reasons: they did not propagate on a lower level. */
  lemma ReasonsReachLevel(f: seq<Clause>, g: Graph, lv: nat)
    requires Searching(f, g, lv) && QuietBelow(f, g, lv) && lv > 0
    ensures ReasonsReach(g, lv)
  {
    hide Opened, Monotone, QuietAt;
    forall i | 0 <= i < |g.trail| && AtLevel(g.trail[i], g, lv)
      ensures ReasonReaches(g, i, lv)
    {
      var up := lv - 1;
      assert AllQuietAt(f, g, up) && Justified(g, i) && ReasonOnce(g, i);
      var r := g.reason[Var(g.trail[i])];
      if r.Some? {
        var y := OtherPosition(r.value, g, i, lv);
      }
    }
  }

  lemma OtherPosition(c: Clause, g: Graph, i: nat, lv: nat) returns (y: Lit)
    requires Indexed(g) && i < |g.trail| && AtLevel(g.trail[i], g, lv) && lv > 0
    requires forall l :: l in c && l != g.trail[i] ==> FalseBefore(l, g, i, lv)
    requires OnceIn(c, g.trail[i]) && QuietAt(c, g, lv - 1)
    ensures y in c && y != g.trail[i] && AtLevel(y, g, lv)
  {
    var t := g.trail[i];
    var up := lv - 1;
    forall l | l in c
      ensures !(IsTrue(l, g) && AssignedUpTo(l, g, up))
    {
      assert l != t ==> FalseBefore(l, g, i, lv);
    }
    var a, b :| 0 <= a < b < |c| && !AssignedUpTo(c[a], g, up) && !AssignedUpTo(c[b], g, up);
    y := if c[a] == t then c[b] else c[a];
    assert FalseBefore(y, g, i, lv);
  }

  /** On level 0 the whole trail is forced, so a conflict refutes the formula. */
  lemma {:induction false} RootForced(f: seq<Clause>, g: Graph, i: nat, m: Model)
    requires Searching(f, g, 0) && SatAll(f, m) && i < |g.trail|
    ensures True(g.trail[i], m)
  {
    var t := g.trail[i];
    assert Justified(g, i);
    var c := g.reason[Var(t)].value;
    assert SatClause(c, m);
    var l :| l in c && True(l, m);
    if l != t {
      assert FalseBefore(l, g, i, g.level[Var(t)]);
      RootForced(f, g, g.pos[Var(l)], m);
    }
  }

  lemma RootConflict(f: seq<Clause>, g: Graph, c: Clause)
    requires Searching(f, g, 0) && c in f && Falsified(Lits(c), g)
    ensures Unsat(f)
  {
    forall m: Model
      ensures !SatAll(f, m)
    {
      if SatAll(f, m) {
        assert SatClause(c, m);
        var l :| l in c && True(l, m);
        assert l in Lits(c) && IsFalse(l, g);
        RootForced(f, g, g.pos[Var(l)], m);
      }
    }
  }

  // -------------------------------------------------------------- backjumping

  /** The graph without the assignments above level `b`, which start at trail
      position `n`. */
  ghost function Cut(g: Graph, b: nat, n: nat): Graph
    requires n <= |g.trail|
  {
    Graph(
      g.trail[..n],
      map v | v in g.value && v in g.level && g.level[v] <= b :: g.value[v],
      map v | v in g.level && g.level[v] <= b :: g.level[v],
      map v | v in g.reason && v in g.level && g.level[v] <= b :: g.reason[v],
      map v | v in g.pos && v in g.level && g.level[v] <= b :: g.pos[v])
  }

  ghost predicate CutsAt(g: Graph, b: nat, n: nat)
    requires Indexed(g)
  {
    n <= |g.trail| && forall i :: 0 <= i < |g.trail| ==> (i < n <==> g.level[Var(g.trail[i])] <= b)
  }

  lemma CutWellFormed(g: Graph, b: nat, n: nat)
    requires WellFormed(g) && CutsAt(g, b, n)
    ensures WellFormed(Cut(g, b, n))
  {
    var h := Cut(g, b, n);
    assert Indexed(h);
    forall i | 0 <= i < n
      ensures Justified(h, i)
    {
      assert Justified(g, i) && h.trail[i] == g.trail[i];
    }
  }

  lemma CutMonotone(g: Graph, b: nat, n: nat)
    requires Indexed(g) && Monotone(g) && CutsAt(g, b, n) && Indexed(Cut(g, b, n))
    ensures Monotone(Cut(g, b, n))
  {
    var h := Cut(g, b, n);
    forall i, j | 0 <= i < j < n
      ensures h.level[Var(h.trail[i])] <= h.level[Var(h.trail[j])]
    {
      assert h.trail[i] == g.trail[i] && h.trail[j] == g.trail[j];
    }
  }

  lemma CutOnce(g: Graph, b: nat, n: nat)
    requires Indexed(g) && ReasonsOnce(g) && CutsAt(g, b, n) && Indexed(Cut(g, b, n))
    ensures ReasonsOnce(Cut(g, b, n))
  {
    hide OnceIn;
    var h := Cut(g, b, n);
    forall i | 0 <= i < n
      ensures ReasonOnce(h, i)
    {
      assert ReasonOnce(g, i) && h.trail[i] == g.trail[i];
    }
  }

  lemma CutKeeps(f: seq<Clause>, g: Graph, lv: nat, b: nat, n: nat)
    requires Searching(f, g, lv) && b <= lv && CutsAt(g, b, n)
    ensures Searching(f, Cut(g, b, n), b)
  {
    hide Justified, Opened, Monotone, ReasonsOnce;
    CutWellFormed(g, b, n);
    assert Monotone(Cut(g, b, n)) by {
      CutMonotone(g, b, n);
    }
    CutOnce(g, b, n);
    forall k | 0 < k <= b
      ensures Opened(Cut(g, b, n), k)
    {
      assert Opened(g, k);
      CutOpened(g, b, n, k);
    }
  }

  lemma CutOpened(g: Graph, b: nat, n: nat, k: nat)
    requires n <= |g.trail| && Opened(g, k) && k <= b
    ensures Opened(Cut(g, b, n), k)
  {
    var v :| v in g.level && g.level[v] == k;
    assert Cut(g, b, n).level[v] == k;
  }

  lemma CutQuiet(c: Clause, g: Graph, b: nat, n: nat, k: nat)
    requires n <= |g.trail| && g.value.Keys == g.level.Keys
    requires QuietAt(c, g, k) && k <= b
    ensures QuietAt(c, Cut(g, b, n), k)
  {
    var h := Cut(g, b, n);
    if x :| x in c && IsTrue(x, g) && AssignedUpTo(x, g, k) {
      assert IsTrue(x, h) && AssignedUpTo(x, h, k);
    } else {
      var i, j :| 0 <= i < j < |c| && !AssignedUpTo(c[i], g, k) && !AssignedUpTo(c[j], g, k);
      assert !AssignedUpTo(c[i], h, k) && !AssignedUpTo(c[j], h, k);
    }
  }

  lemma CutQuietAll(f: seq<Clause>, g: Graph, b: nat, n: nat, k: nat)
    requires n <= |g.trail| && g.value.Keys == g.level.Keys
    requires AllQuietAt(f, g, k) && k <= b
    ensures AllQuietAt(f, Cut(g, b, n), k)
  {
    forall c | c in f
      ensures QuietAt(c, Cut(g, b, n), k)
    {
      CutQuiet(c, g, b, n, k);
    }
  }

  /** One position of `c` is unassigned and every other literal is false. */
  ghost predicate UnitIn(c: Clause, g: Graph) {
    exists i :: 0 <= i < |c| && Var(c[i]) !in g.level &&
      forall j :: 0 <= j < |c| && j != i ==> IsFalse(c[j], g)
  }

  /** `b` is the level the solver returns to after learning `u` on level `lv`. */
  ghost predicate JumpLevel(u: Clause, g: Graph, lv: nat, b: nat) {
    && b < lv
    && (forall l :: l in u && !AtLevel(l, g, lv) ==> AssignedUpTo(l, g, b))
    && (b > 0 ==> exists l :: l in u && AtLevel(l, g, b))
  }

  /** At most one position of `u` is on level `lv`. */
  ghost predicate SoleOn(u: Clause, g: Graph, lv: nat) {
    forall i, j :: 0 <= i < j < |u| ==> !(AtLevel(u[i], g, lv) && AtLevel(u[j], g, lv))
  }

  /** A falsified clause with one position on `lv` drives after the backjump. */
  lemma Asserting(u: Clause, g: Graph, lv: nat, b: nat, n: nat)
    requires n <= |g.trail| && g.value.Keys == g.level.Keys
    requires Falsified(Lits(u), g) && Reaches(Lits(u), g, lv) && SoleOn(u, g, lv) && JumpLevel(u, g, lv, b)
    ensures UnitIn(u, Cut(g, b, n))
  {
    var h := Cut(g, b, n);
    assert forall l :: l in u ==> l in Lits(u);
    var p :| p in Lits(u) && AtLevel(p, g, lv);
    var i :| 0 <= i < |u| && u[i] == p;
    forall j | 0 <= j < |u| && j != i
      ensures IsFalse(u[j], h)
    {
      assert u[j] in Lits(u) && !AtLevel(u[j], g, lv);
    }
  }

  /** A clause that reaches `lv` would not have propagated below the level the
      solver returns to. */
  lemma JumpQuiet(u: Clause, g: Graph, lv: nat, b: nat, n: nat)
    requires n <= |g.trail| && g.value.Keys == g.level.Keys
    requires Reaches(Lits(u), g, lv) && JumpLevel(u, g, lv, b)
    ensures forall k :: 0 <= k < b ==> QuietAt(u, Cut(g, b, n), k)
  {
    var h := Cut(g, b, n);
    var p :| p in Lits(u) && AtLevel(p, g, lv);
    var i :| 0 <= i < |u| && u[i] == p;
    forall k | 0 <= k < b
      ensures QuietAt(u, h, k)
    {
      var l :| l in u && AtLevel(l, g, b);
      var j :| 0 <= j < |u| && u[j] == l;
      assert !AssignedUpTo(u[i], h, k) && !AssignedUpTo(u[j], h, k);
      if i < j { } else { }
    }
  }

  lemma AppendKeeps(f: seq<Clause>, g: Graph, lv: nat, u: Clause)
    requires Searching(f, g, lv)
    ensures Searching(f + [u], g, lv)
  {
    assert VarsOf(f) <= VarsOf(f + [u]);
  }

  // ---------------------------------------------------- turns of the main loop

  /** Backjumping with a falsified clause that reaches the conflict level
      restores the invariant; with one position on that level, the learned
      clause, and it alone, has something to propagate. */
  lemma AfterJump(f: seq<Clause>, g: Graph, lv: nat, u: Clause, b: nat, n: nat)
    requires Searching(f, g, lv) && Quiet(f, g, lv) && lv > 0
    requires Falsified(Lits(u), g) && (NonEmpty(f) ==> Reaches(Lits(u), g, lv))
    requires JumpLevel(u, g, lv, b) && CutsAt(g, b, n)
    ensures Searching(f + [u], Cut(g, b, n), b) && Quiet(f + [u], Cut(g, b, n), b)
    ensures NonEmpty(f) ==> u != [] && (SoleOn(u, g, lv) ==> PendingIn(f + [u], Cut(g, b, n), b))
  {
    hide Justified, Opened, Monotone, QuietAt, Falsified, SoleOn, ReasonsOnce, QuietBelow, WellFormed, PendingIn;
    var h := Cut(g, b, n);
    CutKeeps(f, g, lv, b, n);
    AppendKeeps(f, h, b, u);
    OneMore(f, u);
    if NonEmpty(f) {
      JumpIsQuiet(f, g, lv, u, b, n);
    }
  }

  lemma OneMore(f: seq<Clause>, u: Clause)
    ensures NonEmpty(f + [u]) <==> NonEmpty(f) && u != []
  {
    if NonEmpty(f + [u]) {
      forall c | c in f
        ensures c != []
      {
        assert c in f + [u];
      }
      assert u in f + [u];
    }
  }

  lemma JumpIsQuiet(f: seq<Clause>, g: Graph, lv: nat, u: Clause, b: nat, n: nat)
    requires Searching(f, g, lv) && QuietBelow(f, g, lv) && lv > 0
    requires Falsified(Lits(u), g) && Reaches(Lits(u), g, lv)
    requires JumpLevel(u, g, lv, b) && CutsAt(g, b, n)
    ensures QuietBelow(f + [u], Cut(g, b, n), b) && u != []
    ensures SoleOn(u, g, lv) ==> PendingIn(f + [u], Cut(g, b, n), b)
  {
    hide Justified, Opened, Monotone, QuietAt, Falsified, SoleOn, ReasonsOnce;
    JumpQuiet(u, g, lv, b, n);
    if SoleOn(u, g, lv) {
      Asserting(u, g, lv, b, n);
    }
    assert AllQuietAt(f, g, b);
    CutQuietAll(f, g, b, n, b);
    QuietAfterLearning(f, g, lv, u, b, n);
  }

  lemma QuietAfterLearning(f: seq<Clause>, g: Graph, lv: nat, u: Clause, b: nat, n: nat)
    requires n <= |g.trail| && g.value.Keys == g.level.Keys
    requires QuietBelow(f, g, lv) && b < lv
    requires forall k :: 0 <= k < b ==> QuietAt(u, Cut(g, b, n), k)
    ensures QuietBelow(f + [u], Cut(g, b, n), b)
  {
    forall k, c | 0 <= k < b && c in f + [u]
      ensures QuietAt(c, Cut(g, b, n), k)
    {
      if c in f {
        assert AllQuietAt(f, g, k);
        CutQuiet(c, g, b, n, k);
      }
    }
  }

  lemma ClauseEntailed(f: seq<Clause>, c: Clause)
    requires c in f
    ensures Entails(f, Lits(c))
  {
    forall m: Model | SatAll(f, m)
      ensures SatLits(Lits(c), m)
    {
      assert SatClause(c, m);
      var l :| l in c && True(l, m);
      assert l in Lits(c);
    }
  }

  lemma LitsImplied(f: seq<Clause>, u: Clause)
    requires Entails(f, Lits(u))
    ensures Implies(f, u)
  {
    forall m: Model | SatAll(f, m)
      ensures SatClause(u, m)
    {
      var l :| l in Lits(u) && True(l, m);
      assert l in u;
    }
  }

  /** Deciding after propagation has finished keeps the invariant. */
  lemma AfterDecision(f: seq<Clause>, g: Graph, lv: nat, l: Lit)
    requires Searching(f, g, lv) && Quiet(f, g, lv)
    requires NonEmpty(f) ==> forall c :: c in f ==> Settled(c, g.value)
    requires Var(l) in VarsOf(f) && Var(l) !in g.value
    ensures Searching(f, Extend(g, l, lv + 1, None), lv + 1)
    ensures Quiet(f, Extend(g, l, lv + 1, None), lv + 1)
  {
    hide Justified, Opened, Monotone, QuietBelow, Settled;
    DecisionKeeps(f, g, lv, l);
    if NonEmpty(f) {
      DecisionIsQuiet(f, g, lv, l);
    }
  }

  lemma DecisionIsQuiet(f: seq<Clause>, g: Graph, lv: nat, l: Lit)
    requires Searching(f, g, lv) && QuietBelow(f, g, lv) && Var(l) !in g.value
    requires forall c :: c in f ==> Settled(c, g.value)
    ensures QuietBelow(f, Extend(g, l, lv + 1, None), lv + 1)
  {
    hide Searching, Settled, QuietAt;
    SearchingDomains(f, g, lv);
    forall c | c in f
      ensures QuietAt(c, g, lv)
    {
      SettledIsQuiet(c, g, lv);
    }
    assert forall k :: 0 <= k < lv + 1 ==> AllQuietAt(f, g, k);
    ExtendQuietBelow(f, g, lv + 1, l, lv + 1, None);
  }

  lemma SettledIsQuiet(c: Clause, g: Graph, lv: nat)
    requires g.value.Keys == g.level.Keys && forall v :: v in g.level ==> g.level[v] <= lv
    requires Settled(c, g.value)
    ensures QuietAt(c, g, lv)
  {
    if l :| l in c && TrueIn(l, g.value) {
      assert IsTrue(l, g) && AssignedUpTo(l, g, lv);
    } else {
      var i, j :| 0 <= i < j < |c| && Var(c[i]) !in g.value && Var(c[j]) !in g.value;
      assert !AssignedUpTo(c[i], g, lv) && !AssignedUpTo(c[j], g, lv);
    }
  }

  /** A unit clause is neither in conflict nor settled, and a quiet clause is
      not in conflict: propagation cannot end where a clause is still unit. */
  lemma UnitIsNeither(u: Clause, g: Graph)
    requires UnitIn(u, g) && g.value.Keys == g.level.Keys
    ensures !Falsified(Lits(u), g) && !Settled(u, g.value)
  {
    var i :| 0 <= i < |u| && Var(u[i]) !in g.level && forall j :: 0 <= j < |u| && j != i ==> IsFalse(u[j], g);
    assert u[i] in Lits(u) && !IsFalse(u[i], g);
  }

  lemma QuietIsNoConflict(c: Clause, g: Graph, k: nat)
    requires QuietAt(c, g, k) && g.value.Keys == g.level.Keys
    requires forall v :: v in g.level ==> g.level[v] <= k
    ensures !Falsified(Lits(c), g)
  {
    if l :| l in c && IsTrue(l, g) && AssignedUpTo(l, g, k) {
      assert l in Lits(c) && !IsFalse(l, g);
    } else {
      var i, j :| 0 <= i < j < |c| && !AssignedUpTo(c[i], g, k) && !AssignedUpTo(c[j], g, k);
      assert c[i] in Lits(c) && !IsFalse(c[i], g);
    }
  }

  /** A settled clause without unassigned variables is satisfied. */
  lemma SettledClause(f: seq<Clause>, c: Clause, value: map<int, bool>)
    requires c in f && VarsOf(f) <= value.Keys && Settled(c, value)
    ensures SatClause(c, ModelOf(value))
  {
    forall l | l in c
      ensures Var(l) in value
    {
      assert Var(l) in VarsOf(f);
    }
    var l :| l in c && TrueIn(l, value);
    assert True(l, ModelOf(value));
  }

  lemma SearchingDomains(f: seq<Clause>, g: Graph, lv: nat)
    requires Searching(f, g, lv)
    ensures Indexed(g) && g.value.Keys == g.level.Keys <= VarsOf(f)
    ensures forall v :: v in g.level ==> g.level[v] <= lv
  {
  }

  /** One clause is unit, and the others have nothing to propagate. */
  ghost predicate PendingIn(f: seq<Clause>, g: Graph, lv: nat) {
    exists u :: u in f && UnitIn(u, g) && forall c :: c in f && c != u ==> QuietAt(c, g, lv)
  }

  /** Propagation started in such a state assigns something. */
  lemma PendingProgress(f: seq<Clause>, g: Graph, h: Graph, lv: nat, conflict: Option<Clause>)
    requires g.value.Keys == g.level.Keys && forall v :: v in g.level ==> g.level[v] <= lv
    requires PendingIn(f, g, lv)
    requires g.level.Keys == h.level.Keys ==> g.value == h.value
    requires conflict.Some? ==> conflict.value in f && Falsified(Lits(conflict.value), h)
    requires conflict.None? ==> forall c :: c in f ==> Settled(c, h.value)
    ensures g.level.Keys != h.level.Keys
  {
    var u :| u in f && UnitIn(u, g) && forall c :: c in f && c != u ==> QuietAt(c, g, lv);
    UnitIsNeither(u, g);
    if conflict.Some? && conflict.value != u {
      QuietIsNoConflict(conflict.value, g, lv);
    }
    if g.level.Keys == h.level.Keys && conflict.Some? {
      assert Falsified(Lits(conflict.value), g);
    }
  }
}
