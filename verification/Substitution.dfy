/** Equivalent-literal substitution: what literals with the same representative have
    in common, and how the pushed binary clauses restore the others. */
module Substitution {
  import opened Logic
  import opened Reconstruction
  import opened Clauses
  import opened Digraph
  import opened Components

  /** Under `m` every literal has the value of its representative. */
  ghost predicate Respects(m: Model, reprs: map<Lit, Lit>) {
    forall l :: l in reprs ==> (True(l, m) <==> True(reprs[l], m))
  }

  /** Representatives represent themselves, negations are represented by negations,
      and every literal is in the same component as its representative. */
  ghost predicate Representatives(g: Graph, reprs: map<Lit, Lit>) {
    forall l :: l in reprs ==> RepresentativeOf(g, reprs, l)
  }

  ghost predicate RepresentativeOf(g: Graph, reprs: map<Lit, Lit>, l: Lit) {
    && l in reprs && reprs[l] in reprs && reprs[reprs[l]] == reprs[l] && Mutual(g, l, reprs[l])
    && Neg(l) in reprs && reprs[Neg(l)] == Neg(reprs[l])
  }

  lemma RepresentativeAt(g: Graph, reprs: map<Lit, Lit>, l: Lit)
    requires Representatives(g, reprs) && l in reprs
    ensures reprs[l] in reprs && reprs[reprs[l]] == reprs[l] && Mutual(g, l, reprs[l])
    ensures Neg(l) in reprs && reprs[Neg(l)] == Neg(reprs[l])
  {
    hide Mutual;
    assert RepresentativeOf(g, reprs, l);
  }

  /** Two literals that are not frozen have the same representative exactly if they
      imply each other, and the search found a representative for all. */
  lemma SameRepresentative(g: Graph, nodes: set<Lit>, frozen: set<int>, reprs: map<Lit, Lit>, a: Lit, b: Lit)
    requires Represented(g, nodes, frozen, reprs) && a in nodes && b in nodes && Var(a) !in frozen && Var(b) !in frozen
    ensures reprs[a] == reprs[b] <==> Mutual(g, a, b)
  {
    hide IsRep, Mutual;
    assert RepOf(g, frozen, reprs, a) && RepOf(g, frozen, reprs, b);
    RepUnique(g, a, b, reprs[a], reprs[b]);
  }

  lemma NegatedRepresentative(g: Graph, nodes: set<Lit>, frozen: set<int>, reprs: map<Lit, Lit>, a: Lit)
    requires Represented(g, nodes, frozen, reprs) && a in nodes && Neg(a) in nodes && Skew(g)
    ensures a in reprs && Neg(a) in reprs && reprs[Neg(a)] == Neg(reprs[a])
  {
    hide IsRep, Mutual, Skew;
    assert RepOf(g, frozen, reprs, a) && RepOf(g, frozen, reprs, Neg(a));
    if Var(a) !in frozen {
      RepMirror(g, a, reprs[a]);
      SelfMutual(g, Neg(a));
      RepUnique(g, Neg(a), Neg(a), Neg(reprs[a]), reprs[Neg(a)]);
    }
  }

  lemma SelfMutual(g: Graph, a: Lit)
    ensures Mutual(g, a, a)
  {
    ReachesSelf(g, a);
  }

  lemma RepresentativeItself(g: Graph, nodes: set<Lit>, frozen: set<int>, reprs: map<Lit, Lit>, a: Lit)
    requires Represented(g, nodes, frozen, reprs) && a in nodes && reprs.Keys == nodes && a in reprs
    requires reprs[a] in nodes
    ensures reprs[reprs[a]] == reprs[a] && Mutual(g, a, reprs[a])
  {
    hide Mutual;
    var r := reprs[a];
    assert RepOf(g, frozen, reprs, a) && RepOf(g, frozen, reprs, r);
    if Var(a) in frozen {
      SelfMutual(g, a);
    } else if Var(r) !in frozen {
      RepUnique(g, a, r, r, reprs[r]);
    }
  }

  /** Representatives are nodes of the graph. */
  lemma ReachedIsNode(g: Graph, nodes: set<Lit>, a: Lit, b: Lit)
    requires Reaches(g, a, b) && a in nodes && forall x, y :: Edge(g, x, y) ==> y in nodes
    ensures b in nodes
  {
    hide Reaches;
    ReachesStays(g, nodes, a, b);
  }

  lemma RepresentedIsRepresentatives(g: Graph, nodes: set<Lit>, frozen: set<int>, reprs: map<Lit, Lit>)
    requires Represented(g, nodes, frozen, reprs) && reprs.Keys == nodes && Skew(g)
    requires (forall l :: l in nodes ==> Neg(l) in nodes) && forall x, y :: Edge(g, x, y) ==> y in nodes
    ensures Representatives(g, reprs)
  {
    hide Mutual, Skew, Represented, Edge, RepresentativeOf;
    forall l | l in reprs
      ensures RepresentativeOf(g, reprs, l)
    {
      assert l in reprs.Keys;
      NodeRepresentative(g, nodes, frozen, reprs, l);
    }
  }

  lemma NodeRepresentative(g: Graph, nodes: set<Lit>, frozen: set<int>, reprs: map<Lit, Lit>, l: Lit)
    requires Represented(g, nodes, frozen, reprs) && reprs.Keys == nodes && Skew(g) && l in nodes && Neg(l) in nodes
    requires forall x, y :: Edge(g, x, y) ==> y in nodes
    ensures RepresentativeOf(g, reprs, l)
  {
    hide Mutual, Skew, Represented, Edge;
    NodeRepresented(g, nodes, frozen, reprs, l);
    RepresentativeItself(g, nodes, frozen, reprs, l);
    NegatedRepresentative(g, nodes, frozen, reprs, l);
  }

  lemma NodeRepresented(g: Graph, nodes: set<Lit>, frozen: set<int>, reprs: map<Lit, Lit>, l: Lit)
    requires Represented(g, nodes, frozen, reprs) && l in nodes && forall x, y :: Edge(g, x, y) ==> y in nodes
    ensures l in reprs && reprs[l] in nodes
  {
    assert RepOf(g, frozen, reprs, l);
    if Var(l) !in frozen {
      ReachedIsNode(g, nodes, l, reprs[l]);
    }
  }

  // ----------------------------------------------------- models respect implications

  ghost predicate EdgesHold(g: Graph, m: Model) {
    forall a, b :: Edge(g, a, b) && True(a, m) ==> True(b, m)
  }

  lemma {:induction false} PathHolds(g: Graph, p: seq<Lit>, a: Lit, b: Lit, m: Model)
    requires EdgesHold(g, m) && Path(g, p, a, b) && True(a, m)
    ensures True(b, m)
    decreases |p|
  {
    if |p| > 1 {
      assert Edge(g, p[0], p[1]);
      var q := p[1..];
      forall i | 0 <= i < |q| - 1
        ensures Edge(g, q[i], q[i + 1])
      {
        assert Edge(g, p[i + 1], p[i + 2]);
      }
      PathHolds(g, q, p[1], b, m);
    }
  }

  lemma MutualHolds(g: Graph, a: Lit, b: Lit, m: Model)
    requires EdgesHold(g, m) && Mutual(g, a, b)
    ensures True(a, m) <==> True(b, m)
  {
    var p :| Path(g, p, a, b);
    var q :| Path(g, q, b, a);
    if True(a, m) {
      PathHolds(g, p, a, b, m);
    }
    if True(b, m) {
      PathHolds(g, q, b, a, m);
    }
  }

  /** Models of the binary clauses respect the representatives. */
  lemma ModelsRespect(g: Graph, reprs: map<Lit, Lit>, m: Model)
    requires Representatives(g, reprs) && EdgesHold(g, m)
    ensures Respects(m, reprs)
  {
    hide Mutual, EdgesHold, Representatives, True;
    forall l | l in reprs
      ensures True(l, m) <==> True(reprs[l], m)
    {
      RepresentativeAt(g, reprs, l);
      MutualHolds(g, l, reprs[l], m);
    }
  }

  /** No model if a component contains complementary literals. */
  lemma ConflictUnsatisfiable(g: Graph, a: Lit, m: Model)
    requires Mutual(g, a, Neg(a))
    ensures !EdgesHold(g, m)
  {
    hide Mutual, EdgesHold;
    if EdgesHold(g, m) {
      MutualHolds(g, a, Neg(a), m);
    }
  }

  // ------------------------------------------------------------- reconstruction

  /** The two binary clauses for a substituted variable, with their witnesses. */
  function Equivalence(v: int, r: Lit, id: nat): (es: seq<Entry>)
    requires v > 0
    ensures |es| == 2
  {
    var l: Lit := v;
    [Entry([Neg(l)], id, [Neg(l), r]), Entry([l], id + 1, [l, Neg(r)])]
  }

  lemma ReplayEquivalence(v: int, r: Lit, id: nat, m: Model)
    requires v > 0 && Var(r) != v
    ensures var n := Replay(Equivalence(v, r, id), m); var l: Lit := v;
            (True(l, n) <==> True(r, m)) && forall k: Lit :: Var(k) != v ==> (True(k, n) <==> True(k, m))
  {
    var l: Lit := v;
    var es := Equivalence(v, r, id);
    var e1, e2 := es[0], es[1];
    var n2 := ReplayEntry(e2, m);
    var n1 := ReplayEntry(e1, n2);
    assert es[..1] == [e1] && [e1][..0] == [];
    assert Replay(es, m) == Replay([e1], n2) == Replay([], n1) == n1;
    OneWitness(l, m);
    OneWitness(Neg(l), n2);
    TwoLits(l, Neg(r), m);
    TwoLits(Neg(l), r, n2);
  }

  lemma OneWitness(l: Lit, m: Model)
    ensures MakeTrue([l], m) == SetTrue(l, m)
  {
    assert [l][..0] == [];
    assert MakeTrue([l], m) == MakeTrue([], SetTrue(l, m));
  }

  lemma TwoLits(a: Lit, b: Lit, m: Model)
    ensures SatClause([a, b], m) <==> True(a, m) || True(b, m)
  {
    assert a in [a, b] && b in [a, b];
  }

  /** The variables pushed: those whose representative is another literal. */
  ghost predicate Substituted(v: int, active: set<int>, reprs: map<Lit, Lit>) {
    v > 0 && v in active && v as Lit in reprs && reprs[v as Lit] != v
  }

  /** The entries for all variables up to `k`, in order. */
  ghost function Equivalences(k: nat, active: set<int>, reprs: map<Lit, Lit>, id: nat): seq<Entry> {
    if k == 0 then []
    else
      var before := Equivalences(k - 1, active, reprs, id);
      if Substituted(k, active, reprs) then before + Equivalence(k, reprs[k as Lit], id + |before|) else before
  }

  /** The two clauses for `v` are pushed one after the other, each with its own
      literal of `v` as witness. */
  ghost predicate PairAt(es: seq<Entry>, i: nat, v: int, r: Lit) {
    && v > 0 && i + 1 < |es|
    && es[i].cube == [Neg(v as Lit)] && es[i].clause == [Neg(v as Lit), r]
    && es[i + 1].cube == [v as Lit] && es[i + 1].clause == [v as Lit, Neg(r)]
  }

  ghost predicate PairIn(es: seq<Entry>, v: int, r: Lit) {
    exists i: nat :: PairAt(es, i, v, r)
  }

  lemma {:induction false} TwoEntries(k: nat, active: set<int>, reprs: map<Lit, Lit>, id: nat, v: int)
    requires 1 <= v <= k && Substituted(v, active, reprs)
    ensures PairIn(Equivalences(k, active, reprs, id), v, reprs[v as Lit])
  {
    var es, before := Equivalences(k, active, reprs, id), Equivalences(k - 1, active, reprs, id);
    if v < k {
      TwoEntries(k - 1, active, reprs, id, v);
      var i: nat :| PairAt(before, i, v, reprs[v as Lit]);
      assert PairAt(es, i, v, reprs[v as Lit]);
    } else {
      assert PairAt(es, |before|, v, reprs[v as Lit]);
    }
  }

  /** Representatives are not pushed. */
  lemma RepresentativeStays(g: Graph, active: set<int>, reprs: map<Lit, Lit>, l: Lit)
    requires Representatives(g, reprs) && l in reprs && reprs[l] == l
    ensures !Substituted(Var(l), active, reprs)
  {
    hide Representatives, Mutual;
    RepresentativeAt(g, reprs, l);
    assert Var(l) as Lit == l || Var(l) as Lit == Neg(l);
  }

  /** `n` is `m` with the substituted variables up to `k` set to the values of their
      representatives. */
  ghost predicate Repaired(k: nat, active: set<int>, reprs: map<Lit, Lit>, m: Model, n: Model) {
    && (forall l: Lit :: 1 <= l <= k && Substituted(l, active, reprs) ==> (True(l, n) <==> True(reprs[l], m)))
    && (forall l: Lit :: !(Var(l) <= k && Substituted(Var(l), active, reprs)) ==> (True(l, n) <==> True(l, m)))
  }

  lemma RepairedNone(k: nat, active: set<int>, reprs: map<Lit, Lit>, m: Model, n: Model)
    requires Repaired(k, active, reprs, m, n) && !Substituted(k + 1, active, reprs)
    ensures Repaired(k + 1, active, reprs, m, n)
  {
    hide True, Substituted;
  }

  lemma RepairedOne(k: nat, g: Graph, active: set<int>, reprs: map<Lit, Lit>, m: Model, p: Model, n: Model)
    requires Representatives(g, reprs) && Repaired(k, active, reprs, p, n) && Substituted(k + 1, active, reprs)
    requires True(k + 1 as Lit, p) <==> True(reprs[k + 1 as Lit], m)
    requires forall l: Lit :: Var(l) != k + 1 ==> (True(l, p) <==> True(l, m))
    ensures Repaired(k + 1, active, reprs, m, n)
  {
    hide True, Representatives;
    forall l: Lit | 1 <= l <= k + 1 && Substituted(l, active, reprs)
      ensures True(l, n) <==> True(reprs[l], m)
    {
      RepresentativeAt(g, reprs, l);
      RepresentativeStays(g, active, reprs, reprs[l]);
    }
    forall l: Lit | !(Var(l) <= k + 1 && Substituted(Var(l), active, reprs))
      ensures True(l, n) <==> True(l, m)
    {
    }
  }

  /** Replaying the entries gives every substituted variable the value of its
      representative and changes nothing else. */
  lemma {:induction false} ReplayEquivalences(k: nat, g: Graph, active: set<int>, reprs: map<Lit, Lit>, id: nat,
        m: Model)
    requires Representatives(g, reprs)
    ensures Repaired(k, active, reprs, m, Replay(Equivalences(k, active, reprs, id), m))
  {
    hide Representatives, True, Repaired, Replay, Equivalence;
    if k == 0 {
      RepairedNothing(active, reprs, m);
    } else if Substituted(k, active, reprs) {
      var l: Lit := k;
      var before := Equivalences(k - 1, active, reprs, id);
      var es := Equivalence(k, reprs[l], id + |before|);
      ReplayConcat(before, es, m);
      RepresentativeAt(g, reprs, l);
      RepresentativeStays(g, active, reprs, reprs[l]);
      ReplayEquivalence(k, reprs[l], id + |before|, m);
      var p := Replay(es, m);
      ReplayEquivalences(k - 1, g, active, reprs, id, p);
      RepairedOne(k - 1, g, active, reprs, m, p, Replay(before, p));
    } else {
      ReplayEquivalences(k - 1, g, active, reprs, id, m);
      RepairedNone(k - 1, active, reprs, m, Replay(Equivalences(k - 1, active, reprs, id), m));
    }
  }

  lemma RepairedNothing(active: set<int>, reprs: map<Lit, Lit>, m: Model)
    ensures Repaired(0, active, reprs, m, Replay([], m))
  {
  }

  lemma Unrepaired(k: nat, active: set<int>, reprs: map<Lit, Lit>, m: Model, n: Model, l: Lit)
    requires Repaired(k, active, reprs, m, n) && !Substituted(Var(l), active, reprs)
    ensures True(l, n) <==> True(l, m)
  {
    hide True;
  }

  /** After the replay every literal has the value of its representative. */
  lemma ReplayRespects(k: nat, g: Graph, active: set<int>, reprs: map<Lit, Lit>, id: nat, m: Model)
    requires Representatives(g, reprs) && forall l :: l in reprs ==> Var(l) in active && Var(l) <= k
    ensures Respects(Replay(Equivalences(k, active, reprs, id), m), reprs)
  {
    hide Replay, Equivalences, Representatives, True, Repaired;
    var n := Replay(Equivalences(k, active, reprs, id), m);
    ReplayEquivalences(k, g, active, reprs, id, m);
    forall l | l in reprs
      ensures True(l, n) <==> True(reprs[l], n)
    {
      PairRespects(k, g, active, reprs, m, n, l);
    }
  }

  lemma PairRespects(k: nat, g: Graph, active: set<int>, reprs: map<Lit, Lit>, m: Model, n: Model, l: Lit)
    requires Representatives(g, reprs) && Repaired(k, active, reprs, m, n) && l in reprs && Var(l) in active
    requires Var(l) <= k
    ensures True(l, n) <==> True(reprs[l], n)
  {
    hide Representatives, True, Repaired, Mutual;
    RepresentativeAt(g, reprs, l);
    var v: Lit := Var(l);
    assert l == v || l == Neg(v);
    RepresentativeAt(g, reprs, v);
    VariableRespects(k, g, active, reprs, m, n, v);
    OppositeValues(v, n);
    OppositeValues(reprs[v], n);
  }

  lemma VariableRespects(k: nat, g: Graph, active: set<int>, reprs: map<Lit, Lit>, m: Model, n: Model, v: Lit)
    requires Representatives(g, reprs) && Repaired(k, active, reprs, m, n) && v in reprs && v in active && 1 <= v <= k
    ensures True(v, n) <==> True(reprs[v], n)
  {
    hide Representatives, True, Mutual;
    RepresentativeAt(g, reprs, v);
    RepresentativeStays(g, active, reprs, reprs[v]);
    Unrepaired(k, active, reprs, m, n, reprs[v]);
  }

  lemma OppositeValues(l: Lit, m: Model)
    ensures True(Neg(l), m) <==> !True(l, m)
  {
  }

  // ---------------------------------------------------------- rewriting clauses

  /** All literals of the clause that have a representative are their own. */
  ghost predicate Settled(c: Clause, reprs: map<Lit, Lit>) {
    forall l :: l in c && l in reprs ==> reprs[l] == l
  }

  /** The replay does not change settled clauses. */
  lemma SettledKept(c: Clause, k: nat, g: Graph, active: set<int>, reprs: map<Lit, Lit>, id: nat, m: Model)
    requires Representatives(g, reprs) && Settled(c, reprs)
    ensures SatClause(c, Replay(Equivalences(k, active, reprs, id), m)) <==> SatClause(c, m)
  {
    hide Replay, Equivalences, Representatives, True, Repaired, Substituted;
    var n := Replay(Equivalences(k, active, reprs, id), m);
    ReplayEquivalences(k, g, active, reprs, id, m);
    forall l | l in c
      ensures True(l, n) <==> True(l, m)
    {
      if l in reprs {
        RepresentativeStays(g, active, reprs, l);
      } else {
        NotSubstituted(g, active, reprs, l);
      }
      Unrepaired(k, active, reprs, m, n, l);
    }
  }

  lemma NotSubstituted(g: Graph, active: set<int>, reprs: map<Lit, Lit>, l: Lit)
    requires Representatives(g, reprs) && l !in reprs
    ensures !Substituted(Var(l), active, reprs)
  {
    hide Representatives, Mutual;
    var v: Lit := Var(l);
    if v in reprs {
      RepresentativeAt(g, reprs, v);
    }
  }

  /** `clause` is what the first `k` literals of `c` become: representatives of
      unassigned literals without repetition, false ones dropped. */
  ghost predicate Rewritten(c: Clause, k: nat, clause: Clause, vals: map<int, bool>, reprs: map<Lit, Lit>)
    requires k <= |c|
  {
    && (forall x :: x in clause ==> exists j :: 0 <= j < k && Becomes(c[j], x, vals, reprs))
    && (forall j :: 0 <= j < k ==>
          Val(c[j], vals) < 0 || (c[j] in reprs && (Val(reprs[c[j]], vals) < 0 || reprs[c[j]] in clause)))
    && NoDuplicates(clause) && (forall x :: x in clause ==> Neg(x) !in clause)
  }

  ghost predicate Becomes(l: Lit, x: Lit, vals: map<int, bool>, reprs: map<Lit, Lit>) {
    Val(l, vals) == 0 && l in reprs && reprs[l] == x && Val(x, vals) == 0
  }

  /** A rewritten clause means the same under assignments that respect the
      representatives and the units. */
  lemma RewrittenMeans(c: Clause, clause: Clause, vals: map<int, bool>, reprs: map<Lit, Lit>, m: Model)
    requires Rewritten(c, |c|, clause, vals, reprs) && Respects(m, reprs) && Agrees(m, vals)
    ensures SatClause(c, m) <==> SatClause(clause, m)
  {
    if SatClause(c, m) {
      var l :| l in c && True(l, m);
      var j :| 0 <= j < |c| && c[j] == l;
      AgreesTrue(m, vals, l);
      AgreesTrue(m, vals, reprs[l]);
      assert reprs[l] in clause && True(reprs[l], m);
    }
    if SatClause(clause, m) {
      var x :| x in clause && True(x, m);
      var j :| 0 <= j < |c| && Becomes(c[j], x, vals, reprs);
      assert True(c[j], m);
    }
  }

  /** What makes a clause satisfied after substitution. */
  ghost predicate Obvious(c: Clause, vals: map<int, bool>, reprs: map<Lit, Lit>) {
    || (exists l :: l in c && Val(l, vals) > 0)
    || (exists l :: l in c && l in reprs && Val(reprs[l], vals) > 0)
    || (exists k, l :: k in c && l in c && k in reprs && l in reprs && reprs[k] == Neg(reprs[l]))
  }

  lemma ObviousHolds(c: Clause, vals: map<int, bool>, reprs: map<Lit, Lit>, m: Model)
    requires Obvious(c, vals, reprs) && Respects(m, reprs) && Agrees(m, vals)
    ensures SatClause(c, m)
  {
    if l :| l in c && Val(l, vals) > 0 {
      AgreesTrue(m, vals, l);
    } else if l :| l in c && l in reprs && Val(reprs[l], vals) > 0 {
      AgreesTrue(m, vals, reprs[l]);
      assert True(l, m);
    } else {
      var k, l :| k in c && l in c && k in reprs && l in reprs && reprs[k] == Neg(reprs[l]);
      OppositeValues(reprs[l], m);
      assert True(k, m) || True(l, m);
    }
  }

  lemma ObviousLater(c: Clause, vals0: map<int, bool>, vals: map<int, bool>, reprs: map<Lit, Lit>)
    requires Obvious(c, vals0, reprs) && forall v :: v in vals0 ==> v in vals && vals[v] == vals0[v]
    ensures Obvious(c, vals, reprs)
  {
    if l :| l in c && Val(l, vals0) > 0 {
      assert Val(l, vals) > 0;
    } else if l :| l in c && l in reprs && Val(reprs[l], vals0) > 0 {
      assert Val(reprs[l], vals) > 0;
    }
  }
}
