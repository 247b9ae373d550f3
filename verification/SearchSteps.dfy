/** What the steps shared by the two Python solvers compute, as functions: the
    status of a clause, unit propagation in list order, resolution in order of
    first occurrence. */
module SearchSteps {
  import opened Logic
  import opened ImplicationGraph
  import opened SearchState

  type Variable = v: int | v > 0 witness 1

  datatype Status = Satisfied | Conflict | Unit(literal: Lit) | Undefined

  function OpenLits(c: Clause, value: map<int, bool>): Clause {
    if c == [] then []
    else
      var l := c[|c|-1];
      OpenLits(c[..|c|-1], value) + if Var(l) in value then [] else [l]
  }

  ghost function StatusOf(c: Clause, value: map<int, bool>): Status {
    var open := OpenLits(c, value);
    if exists l :: l in c && TrueIn(l, value) then Satisfied
    else if open == [] then Conflict
    else if |open| == 1 then Unit(open[0])
    else Undefined
  }

  /** The clause that stopped propagation, if any, and the graph it left. */
  datatype Propagation = Propagation(g: Graph, conflict: Option<Clause>, changed: bool)

  lemma {:induction false} OpenLitsMembers(c: Clause, value: map<int, bool>)
    ensures forall l :: l in OpenLits(c, value) <==> l in c && Var(l) !in value
  {
    if c != [] {
      OpenLitsMembers(c[..|c|-1], value);
      assert c == c[..|c|-1] + [c[|c|-1]];
    }
  }

  /** With one open literal, every other position is assigned. */
  lemma {:induction false} OpenLitsSingle(c: Clause, value: map<int, bool>) returns (i: nat)
    requires |OpenLits(c, value)| == 1
    ensures i < |c| && c[i] == OpenLits(c, value)[0] && Var(c[i]) !in value
    ensures forall j :: 0 <= j < |c| && j != i ==> Var(c[j]) in value
  {
    var d, l := c[..|c|-1], c[|c|-1];
    if Var(l) in value {
      i := OpenLitsSingle(d, value);
    } else {
      i := |c| - 1;
      OpenLitsMembers(d, value);
      forall j | 0 <= j < |c| && j != i
        ensures Var(c[j]) in value
      {
        assert c[j] == d[j] && d[j] in d;
      }
    }
  }

  lemma UnitStatus(c: Clause, value: map<int, bool>)
    requires StatusOf(c, value).Unit?
    ensures UnitWith(c, value, StatusOf(c, value).literal)
  {
    var i := OpenLitsSingle(c, value);
    forall j | 0 <= j < |c| && j != i
      ensures FalseIn(c[j], value)
    {
      assert c[j] in c && !TrueIn(c[j], value);
    }
  }

  lemma ConflictStatus(c: Clause, g: Graph)
    requires StatusOf(c, g.value).Conflict?
    ensures Falsified(Lits(c), g)
  {
    OpenLitsMembers(c, g.value);
    forall l | l in c
      ensures IsFalse(l, g)
    {
      assert !TrueIn(l, g.value) && l !in OpenLits(c, g.value);
    }
  }

  // ------------------------------------------------------------- propagation

  ghost predicate Sound(f: seq<Clause>, p: Propagation, lv: nat) {
    && Searching(f, p.g, lv)
    && (p.conflict.Some? ==> p.conflict.value in f && Falsified(Lits(p.conflict.value), p.g))
  }

  lemma PassKeeps(f: seq<Clause>, i: nat, g: Graph, lv: nat)
    requires i < |f| && Searching(f, g, lv)
    ensures var s := StatusOf(f[i], g.value);
      && (s.Conflict? ==> Sound(f, Propagation(g, Some(f[i]), true), lv))
      && (s.Unit? ==>
            && Searching(f, Extend(g, s.literal, lv, Some(f[i])), lv)
            && Var(s.literal) !in g.value && Var(s.literal) in VarsOf(f))
  {
    hide Searching, StatusOf, Falsified;
    var s := StatusOf(f[i], g.value);
    if s.Conflict? {
      ConflictStatus(f[i], g);
    } else if s.Unit? {
      UnitStatus(f[i], g.value);
      UnitExtends(f, g, lv, f[i], s.literal);
    }
  }

  lemma UnitExtends(f: seq<Clause>, g: Graph, lv: nat, c: Clause, u: Lit)
    requires Searching(f, g, lv) && c in f && UnitWith(c, g.value, u)
    ensures Searching(f, Extend(g, u, lv, Some(c)), lv)
    ensures Var(u) !in g.value && Var(u) in VarsOf(f)
  {
    hide WellFormed, Opened, Monotone, ReasonsOnce;
    SearchingDomains(f, g, lv);
    assert u in c && Var(u) in VarsOf(f);
    assert forall k :: k in c && k != u ==> IsFalse(k, g);
    ExtendKeeps(f, g, lv, u, c);
  }

  /** One pass over the clauses from position `i` on: conflicts stop it, units
      are assigned at once. */
  ghost function Pass(f: seq<Clause>, i: nat, g: Graph, lv: nat, changed: bool): (p: Propagation)
    requires i <= |f| && Searching(f, g, lv)
    ensures Sound(f, p, lv)
    decreases |f| - i
  {
    if i == |f| then Propagation(g, None, changed)
    else
      PassKeeps(f, i, g, lv);
      match StatusOf(f[i], g.value)
      case Conflict => Propagation(g, Some(f[i]), changed)
      case Unit(l) => Pass(f, i + 1, Extend(g, l, lv, Some(f[i])), lv, true)
      case _ => Pass(f, i + 1, g, lv, changed)
  }

  /** Clauses that are satisfied or open are passed over. */
  lemma {:induction false} PassSkips(f: seq<Clause>, i: nat, j: nat, g: Graph, lv: nat, changed: bool)
    requires i <= j <= |f| && Searching(f, g, lv)
    requires forall k :: i <= k < j ==> var s := StatusOf(f[k], g.value); s.Satisfied? || s.Undefined?
    ensures Pass(f, i, g, lv, changed) == Pass(f, j, g, lv, changed)
    decreases j - i
  {
    hide Searching, StatusOf;
    if i < j {
      PassSkips(f, i + 1, j, g, lv, changed);
    }
  }

  /** Clause `c` is not in conflict, and assigns if it is unit. */
  ghost predicate VisitTo(c: Clause, g: Graph, h: Graph, lv: nat) {
    match StatusOf(c, g.value)
    case Conflict => false
    case Unit(l) => h == Extend(g, l, lv, Some(c))
    case _ => h == g
  }

  /** The graphs `gs` arise when the clauses from position `i` on are visited one by
      one, in list order: none is in conflict, and those that are unit assign. */
  ghost predicate Visits(f: seq<Clause>, i: nat, gs: seq<Graph>, lv: nat) {
    && gs != [] && i + |gs| - 1 <= |f|
    && forall k :: 0 <= k < |gs| - 1 ==> VisitTo(f[i + k], gs[k], gs[k+1], lv)
  }

  /** One pass visits the clauses in list order, up to the first conflict. */
  lemma {:induction false} PassVisits(f: seq<Clause>, i: nat, g: Graph, lv: nat, changed: bool)
    returns (gs: seq<Graph>)
    requires i <= |f| && Searching(f, g, lv)
    ensures Visits(f, i, gs, lv) && gs[0] == g
    ensures var p := Pass(f, i, g, lv, changed);
      && gs[|gs|-1] == p.g
      && match p.conflict
         case None => i + |gs| - 1 == |f|
         case Some(c) => i + |gs| - 1 < |f| && f[i + |gs| - 1] == c && StatusOf(c, p.g.value).Conflict?
    decreases |f| - i
  {
    hide Searching, StatusOf, Sound, Extend;
    gs := [g];
    if i < |f| {
      PassKeeps(f, i, g, lv);
      match StatusOf(f[i], g.value) {
        case Conflict =>
        case Unit(l) =>
          var rest := PassVisits(f, i + 1, Extend(g, l, lv, Some(f[i])), lv, true);
          VisitsMore(f, i, g, rest, lv);
          gs := [g] + rest;
        case _ =>
          var rest := PassVisits(f, i + 1, g, lv, changed);
          VisitsMore(f, i, g, rest, lv);
          gs := [g] + rest;
      }
    }
  }

  lemma VisitsMore(f: seq<Clause>, i: nat, g: Graph, rest: seq<Graph>, lv: nat)
    requires i < |f| && Visits(f, i + 1, rest, lv)
    requires VisitTo(f[i], g, rest[0], lv)
    ensures Visits(f, i, [g] + rest, lv)
  {
    hide VisitTo;
    var gs := [g] + rest;
    forall k | 0 <= k < |gs| - 1
      ensures VisitTo(f[i + k], gs[k], gs[k+1], lv)
    {
      if k > 0 {
        assert gs[k] == rest[k-1] && gs[k+1] == rest[k-1+1] && f[i + k] == f[i + 1 + (k - 1)];
      }
    }
  }

  ghost predicate Grown(f: seq<Clause>, g: Graph, p: Propagation, changed: bool) {
    && g.value.Keys <= p.g.value.Keys
    && (p.changed && !changed ==> exists v :: v in VarsOf(f) && v !in g.value && v in p.g.value)
  }

  lemma {:induction false} PassGrows(f: seq<Clause>, i: nat, g: Graph, lv: nat, changed: bool)
    requires i <= |f| && Searching(f, g, lv)
    ensures Grown(f, g, Pass(f, i, g, lv, changed), changed)
    decreases |f| - i
  {
    hide Searching, StatusOf, VarsOf, Sound;
    if i < |f| {
      PassKeeps(f, i, g, lv);
      match StatusOf(f[i], g.value) {
        case Conflict =>
        case Unit(l) =>
          var h := Extend(g, l, lv, Some(f[i]));
          assert h.value.Keys == g.value.Keys + {Var(l)};
          PassGrows(f, i + 1, h, lv, true);
        case _ => PassGrows(f, i + 1, g, lv, changed);
      }
    }
  }

  /** Passes until one assigns nothing or meets a conflict. */
  ghost function Propagate(f: seq<Clause>, g: Graph, lv: nat): (p: Propagation)
    requires Searching(f, g, lv)
    ensures Sound(f, p, lv)
    decreases VarsOf(f) - g.value.Keys
  {
    var p := Pass(f, 0, g, lv, false);
    PassGrows(f, 0, g, lv, false);
    if p.conflict.Some? || !p.changed then p else Propagate(f, p.g, lv)
  }

  // -------------------------------------------------------------- resolution

  /** `acc` followed by the literals of `c` other than `skip` that are new. */
  function Merged(acc: Clause, c: Clause, skip: Lit): Clause
    decreases |c|
  {
    if c == [] then acc
    else Merged(if c[0] == skip || c[0] in acc then acc else acc + [c[0]], c[1..], skip)
  }

  /** The resolvent with its literals in order of first occurrence. */
  function ResolventInOrder(c: Clause, d: Clause, pivot: Lit): Clause {
    Merged(Merged([], c, pivot), d, Neg(pivot))
  }

  lemma {:induction false} MergedLits(acc: Clause, c: Clause, skip: Lit)
    ensures Lits(Merged(acc, c, skip)) == Lits(acc) + (Lits(c) - {skip})
    ensures NoDuplicates(acc) ==> NoDuplicates(Merged(acc, c, skip))
    decreases |c|
  {
    if c != [] {
      var l := c[0];
      var next := if l == skip || l in acc then acc else acc + [l];
      LitsAppend(acc, l);
      MergedLits(next, c[1..], skip);
      assert c == [l] + c[1..];
      assert forall x :: x in Lits(c) <==> x == l || x in Lits(c[1..]);
    } else {
      assert Lits(c) == {};
    }
  }

  lemma ResolventLits(c: Clause, d: Clause, pivot: Lit)
    ensures Lits(ResolventInOrder(c, d, pivot)) == Resolvent(Lits(c), pivot, Lits(d))
    ensures NoDuplicates(ResolventInOrder(c, d, pivot))
  {
    hide NoDuplicates;
    assert NoDuplicates<Lit>([]) by { EmptyIsFine(); }
    MergedLits([], c, pivot);
    MergedLits(Merged([], c, pivot), d, Neg(pivot));
    assert Lits([]) == {};
  }

  /** Position `k` of `c` followed by `d` holds `x` and is kept: the pivot goes from
      the first clause, and its negation from the second. */
  ghost predicate KeptAt(c: Clause, d: Clause, pivot: Lit, k: nat, x: Lit) {
    if k < |c| then c[k] == x && x != pivot else k < |c| + |d| && d[k - |c|] == x && x != Neg(pivot)
  }

  ghost predicate FirstAt(c: Clause, d: Clause, pivot: Lit, k: nat, x: Lit) {
    KeptAt(c, d, pivot, k, x) && forall j: nat :: j < k ==> !KeptAt(c, d, pivot, j, x)
  }

  ghost predicate Stands(c: Clause, d: Clause, pivot: Lit, x: Lit) {
    exists k: nat :: FirstAt(c, d, pivot, k, x)
  }

  /** The literals kept, each once, in the order of their first positions. */
  ghost predicate InOrder(u: Clause, c: Clause, d: Clause, pivot: Lit) {
    && (forall i :: 0 <= i < |u| ==> Stands(c, d, pivot, u[i]))
    && (forall k: nat, x :: KeptAt(c, d, pivot, k, x) ==> x in u)
    && forall i, j, a: nat, b: nat ::
         0 <= i < |u| && 0 <= j < |u| && FirstAt(c, d, pivot, a, u[i]) && FirstAt(c, d, pivot, b, u[j]) ==>
         (i < j <==> a < b)
  }

  ghost predicate FirstIn(c: Clause, k: nat, x: Lit) {
    k < |c| && c[k] == x && x !in c[..k]
  }

  lemma FirstInTail(c: Clause, k: nat, x: Lit)
    requires c != [] && x != c[0] && FirstIn(c[1..], k, x)
    ensures FirstIn(c, k + 1, x)
  {
    assert c[..k+1] == [c[0]] + c[1..][..k];
  }

  /** The literals of `u` from `n` on stand first at the positions `ks` of `c`. */
  ghost predicate PlacedIn(u: Clause, n: nat, c: Clause, ks: seq<nat>) {
    && |u| == n + |ks| && (forall i :: 0 <= i < |ks| ==> FirstIn(c, ks[i], u[n + i]))
    && forall i, j :: 0 <= i < j < |ks| ==> ks[i] < ks[j]
  }

  lemma PlacedLater(u: Clause, n: nat, c: Clause, ks: seq<nat>)
    requires c != [] && PlacedIn(u, n, c[1..], ks) && forall i :: n <= i < |u| ==> u[i] != c[0]
    ensures PlacedIn(u, n, c, seq(|ks|, i requires 0 <= i < |ks| => ks[i] + 1))
  {
    hide FirstIn;
    forall i | 0 <= i < |ks|
      ensures FirstIn(c, ks[i] + 1, u[n + i])
    {
      FirstInTail(c, ks[i], u[n + i]);
    }
  }

  lemma PlacedFirst(u: Clause, n: nat, c: Clause, ks: seq<nat>)
    requires c != [] && n < |u| && u[n] == c[0] && PlacedIn(u, n + 1, c, ks) && forall i :: 0 <= i < |ks| ==> ks[i] > 0
    ensures PlacedIn(u, n, c, [0] + ks)
  {
    hide FirstIn;
    AtFront(c);
    forall i | 0 <= i < |[0] + ks|
      ensures FirstIn(c, ([0] + ks)[i], u[n + i])
    {
      assert i > 0 ==> ([0] + ks)[i] == ks[i - 1] && u[n + i] == u[n + 1 + (i - 1)];
    }
  }

  /** What is merged comes in the order of first positions. */
  lemma {:induction false} MergedPlaces(acc: Clause, c: Clause, skip: Lit) returns (ks: seq<nat>)
    ensures var u := Merged(acc, c, skip);
      && acc <= u && PlacedIn(u, |acc|, c, ks) && forall i :: |acc| <= i < |u| ==> u[i] != skip && u[i] !in acc
    decreases |c|
  {
    hide PlacedIn;
    ks := [];
    if c != [] {
      var l := c[0];
      var added := l != skip && l !in acc;
      var next := if added then acc + [l] else acc;
      var later := MergedPlaces(next, c[1..], skip);
      var u := Merged(next, c[1..], skip);
      ks := seq(|later|, i requires 0 <= i < |later| => later[i] + 1);
      PlacedLater(u, |next|, c, later);
      if added {
        assert u[|acc|] == l;
        PlacedFirst(u, |acc|, c, ks);
        ks := [0] + ks;
      }
    } else {
      NonePlaced(acc);
    }
  }

  lemma NonePlaced(u: Clause)
    ensures PlacedIn(u, |u|, [], [])
  {
  }

  lemma AtFront(c: Clause)
    requires c != []
    ensures FirstIn(c, 0, c[0])
  {
  }

  lemma FirstKept(c: Clause, d: Clause, pivot: Lit, k: nat, x: Lit)
    ensures FirstIn(c, k, x) && x != pivot ==> FirstAt(c, d, pivot, k, x)
    ensures FirstIn(d, k, x) && x != Neg(pivot) && (x == pivot || x !in c) ==> FirstAt(c, d, pivot, |c| + k, x)
  {
    if FirstIn(c, k, x) {
      assert forall j :: 0 <= j < k ==> c[..k][j] == c[j];
    }
    if FirstIn(d, k, x) {
      assert forall j :: 0 <= j < k ==> d[..k][j] == d[j];
    }
  }

  lemma FirstIsOne(c: Clause, d: Clause, pivot: Lit, a: nat, b: nat, x: Lit)
    requires FirstAt(c, d, pivot, a, x) && FirstAt(c, d, pivot, b, x)
    ensures a == b
  {
    assert !(a < b) && !(b < a);
  }

  ghost predicate Placed(u: Clause, c: Clause, d: Clause, pivot: Lit, places: seq<nat>) {
    && |places| == |u| && (forall i :: 0 <= i < |u| ==> FirstAt(c, d, pivot, places[i], u[i]))
    && forall i, j :: 0 <= i < j < |u| ==> places[i] < places[j]
  }

  lemma PlacedInOrder(u: Clause, c: Clause, d: Clause, pivot: Lit, places: seq<nat>)
    requires Placed(u, c, d, pivot, places) && forall k: nat, x :: KeptAt(c, d, pivot, k, x) ==> x in u
    ensures InOrder(u, c, d, pivot)
  {
    hide FirstAt, KeptAt;
    forall i | 0 <= i < |u|
      ensures Stands(c, d, pivot, u[i])
    {
      var k: nat := places[i];
      assert FirstAt(c, d, pivot, k, u[i]);
    }
    forall i, j, a: nat, b: nat
      | 0 <= i < |u| && 0 <= j < |u| && FirstAt(c, d, pivot, a, u[i]) && FirstAt(c, d, pivot, b, u[j])
      ensures i < j <==> a < b
    {
      FirstIsOne(c, d, pivot, a, places[i], u[i]);
      FirstIsOne(c, d, pivot, b, places[j], u[j]);
    }
  }

  lemma BothPlaced(u: Clause, m: Clause, c: Clause, d: Clause, pivot: Lit, ks: seq<nat>, more: seq<nat>)
    requires m <= u && PlacedIn(m, 0, c, ks) && PlacedIn(u, |m|, d, more) && Lits(m) == Lits(c) - {pivot}
    requires forall i :: 0 <= i < |m| ==> m[i] != pivot
    requires forall i :: |m| <= i < |u| ==> u[i] != Neg(pivot) && u[i] !in m
    ensures Placed(u, c, d, pivot, ks + seq(|more|, i requires 0 <= i < |more| => |c| + more[i]))
  {
    hide FirstAt;
    var places := ks + seq(|more|, i requires 0 <= i < |more| => |c| + more[i]);
    forall i | 0 <= i < |u|
      ensures FirstAt(c, d, pivot, places[i], u[i])
    {
      if i < |m| {
        assert u[i] == m[0 + i];
        FirstKept(c, d, pivot, ks[i], u[i]);
      } else {
        NewInSecond(m, c, pivot, u[i]);
        assert u[i] == u[|m| + (i - |m|)];
        FirstKept(c, d, pivot, more[i - |m|], u[i]);
      }
    }
  }

  /** The resolvent lists first what the first clause contributes, then what is new
      in the second one, each in clause order. */
  lemma ResolventOrder(c: Clause, d: Clause, pivot: Lit)
    ensures InOrder(ResolventInOrder(c, d, pivot), c, d, pivot)
  {
    hide PlacedIn, Placed, InOrder, KeptAt;
    var m, u := Merged([], c, pivot), ResolventInOrder(c, d, pivot);
    var ks := MergedPlaces([], c, pivot);
    var more := MergedPlaces(m, d, Neg(pivot));
    ResolventLits(c, d, pivot);
    MergedLits([], c, pivot);
    assert Lits([]) == {};
    BothPlaced(u, m, c, d, pivot, ks, more);
    KeptMembers(c, d, pivot, u);
    PlacedInOrder(u, c, d, pivot, ks + seq(|more|, i requires 0 <= i < |more| => |c| + more[i]));
  }

  lemma NewInSecond(m: Clause, c: Clause, pivot: Lit, x: Lit)
    requires Lits(m) == Lits(c) - {pivot} && x !in m
    ensures x == pivot || x !in c
  {
    assert x in Lits(m) <==> x in Lits(c) && x != pivot;
  }

  lemma KeptMembers(c: Clause, d: Clause, pivot: Lit, u: Clause)
    requires Lits(u) == Resolvent(Lits(c), pivot, Lits(d))
    ensures forall k: nat, x :: KeptAt(c, d, pivot, k, x) ==> x in u
  {
    forall k: nat, x | KeptAt(c, d, pivot, k, x)
      ensures x in u
    {
      assert x in Lits(u);
    }
  }

  lemma EmptyIsFine()
    ensures NoDuplicates<Lit>([])
  {
  }

  // -------------------------------------------------- literals on one level

  /** The literals of `c` on level `lv`, in clause order. */
  function OnLevel(c: Clause, g: Graph, lv: nat): Clause {
    if c == [] then []
    else
      var l := c[|c|-1];
      OnLevel(c[..|c|-1], g, lv) + if AtLevel(l, g, lv) then [l] else []
  }

  lemma {:induction false} OnLevelMembers(c: Clause, g: Graph, lv: nat)
    ensures forall l :: l in OnLevel(c, g, lv) <==> l in c && AtLevel(l, g, lv)
  {
    if c != [] {
      var d := c[..|c|-1];
      OnLevelMembers(d, g, lv);
      assert c == d + [c[|c|-1]];
    }
  }

  lemma {:induction false} OnLevelCount(c: Clause, g: Graph, lv: nat)
    ensures |OnLevel(c, g, lv)| <= 1 <==> SoleOn(c, g, lv)
  {
    if c != [] {
      var n := |c| - 1;
      var d := c[..n];
      OnLevelCount(d, g, lv);
      OnLevelMembers(d, g, lv);
      assert c == d + [c[n]];
      if AtLevel(c[n], g, lv) && OnLevel(d, g, lv) != [] {
        var l := OnLevel(d, g, lv)[0];
        assert l in OnLevel(d, g, lv) && l in d;
        var i :| 0 <= i < n && d[i] == l;
        assert c[i] == l && !SoleOn(c, g, lv);
      }
      forall i, j | SoleOn(d, g, lv) && (AtLevel(c[n], g, lv) ==> OnLevel(d, g, lv) == []) && 0 <= i < j < |c|
        ensures !(AtLevel(c[i], g, lv) && AtLevel(c[j], g, lv))
      {
        assert c[i] == d[i] && d[i] in d;
        assert j < n ==> c[j] == d[j];
      }
    }
  }

  lemma SoleAtMostOne(c: Clause, g: Graph, lv: nat)
    requires NoDuplicates(c)
    ensures SoleOn(c, g, lv) <==> AtMostOne(Lits(c), g, lv)
  {
    forall i, j | AtMostOne(Lits(c), g, lv) && 0 <= i < j < |c|
      ensures !(AtLevel(c[i], g, lv) && AtLevel(c[j], g, lv))
    {
      assert c[i] in Lits(c) && c[j] in Lits(c);
    }
    forall l, k | SoleOn(c, g, lv) && l in Lits(c) && k in Lits(c) && AtLevel(l, g, lv) && AtLevel(k, g, lv)
      ensures l == k
    {
      var i :| 0 <= i < |c| && c[i] == l;
      var j :| 0 <= j < |c| && c[j] == k;
    }
  }
}
