/** The proof tracer that computes interpolants along the proof chains. */
module CraigTracing {
  import opened Logic
  import opened Aig
  import opened Craig
  import opened CraigCnf

  // ----------------------------------------------------------- proof chains

  /** The clause an interpolant belongs to and the literals marked so far. */
  datatype Track = Track(resolvent: set<Lit>, marked: set<Lit>)

  /** After the first `k` literals of `c`: a literal whose negation is marked is
      resolved upon; every literal gets marked. */
  ghost function TrackLiterals(t: Track, c: Clause, k: nat): Track
    requires k <= |c|
  {
    if k == 0 then t
    else
      var u := TrackLiterals(t, c, k - 1);
      var l := c[k-1];
      Track(if Neg(l) in u.marked then Resolve(u.resolvent, Neg(l), Lits(c)) else u.resolvent, u.marked + {l})
  }

  /** The chain is followed from its last clause, the conflict, to `ds[i]`. */
  ghost function TrackChain(ds: seq<Clause>, i: nat): Track
    requires i < |ds|
    decreases |ds| - i
  {
    if i == |ds| - 1 then Track(Lits(ds[i]), Lits(ds[i]))
    else TrackLiterals(TrackChain(ds, i + 1), ds[i], |ds[i]|)
  }

  /** The literals that are false after the first `i` units. */
  ghost function Falsified(c: set<Lit>, us: seq<Lit>, i: nat): set<Lit>
    requires i <= |us|
  {
    c + set j | 0 <= j < i :: Neg(us[j])
  }

  /** Reverse unit propagation: assuming the literals of `c` false, each clause
      gives a new unit, and the last one is false. */
  ghost predicate UnitChain(c: set<Lit>, ds: seq<Clause>, us: seq<Lit>) {
    && |ds| == |us| + 1 && (forall l :: l in c ==> Neg(l) !in c)
    && (forall i :: 0 <= i < |us| ==> UnitAt(c, ds, us, i))
    && (forall l :: l in ds[|us|] ==> l in Falsified(c, us, |us|))
  }

  ghost predicate UnitAt(c: set<Lit>, ds: seq<Clause>, us: seq<Lit>, i: nat)
    requires i < |us| < |ds|
  {
    && us[i] in ds[i] && us[i] !in Falsified(c, us, i) && Neg(us[i]) !in Falsified(c, us, i)
    && forall l :: l in ds[i] && l != us[i] ==> l in Falsified(c, us, i)
  }

  ghost predicate ValidChain(c: set<Lit>, ds: seq<Clause>) {
    exists us :: UnitChain(c, ds, us)
  }

  lemma {:induction false} FalsifiedGrows(c: set<Lit>, ds: seq<Clause>, us: seq<Lit>, i: nat, j: nat)
    requires i <= j <= |us|
    ensures Falsified(c, us, i) <= Falsified(c, us, j)
  {
  }

  lemma {:induction false} FalsifiedConsistent(c: set<Lit>, ds: seq<Clause>, us: seq<Lit>, i: nat, l: Lit)
    requires UnitChain(c, ds, us) && i <= |us|
    ensures l in Falsified(c, us, i) ==> Neg(l) !in Falsified(c, us, i)
  {
    if i > 0 {
      assert UnitAt(c, ds, us, i - 1);
      assert Falsified(c, us, i) == Falsified(c, us, i - 1) + {Neg(us[i-1])};
      FalsifiedConsistent(c, ds, us, i - 1, l);
    } else {
      assert Falsified(c, us, 0) == c;
    }
  }

  /** A mark is a falsified literal or one of the units still to be resolved. */
  ghost predicate Marked(marked: set<Lit>, c: set<Lit>, us: seq<Lit>, i: nat) {
    forall l :: l in marked ==> l in Falsified(c, us, |us|) || exists j :: i <= j < |us| && us[j] == l
  }

  /** The tracked clause contains only literals falsified before the unit that is
      resolved next. */
  lemma {:induction false} ChainTracked(c: set<Lit>, ds: seq<Clause>, us: seq<Lit>, i: nat)
    requires UnitChain(c, ds, us) && i <= |us|
    ensures TrackChain(ds, i).resolvent <= Falsified(c, us, i)
    ensures TrackChain(ds, i).resolvent <= TrackChain(ds, i).marked
    ensures Marked(TrackChain(ds, i).marked, c, us, i)
    decreases |us| - i
  {
    if i < |us| {
      ChainTracked(c, ds, us, i + 1);
      assert UnitAt(c, ds, us, i);
      LiteralsTracked(c, ds, us, i, TrackChain(ds, i + 1), |ds[i]|);
      assert ds[i][..|ds[i]|] == ds[i];
    }
  }

  /** In a chain of units only the unit itself can be resolved upon. */
  lemma {:induction false} LiteralsTracked(c: set<Lit>, ds: seq<Clause>, us: seq<Lit>, i: nat, t: Track, k: nat)
    requires UnitChain(c, ds, us) && i < |us| && k <= |ds[i]|
    requires t.resolvent <= Falsified(c, us, i + 1) && t.resolvent <= t.marked && Marked(t.marked, c, us, i + 1)
    ensures var u := TrackLiterals(t, ds[i], k);
            && u.resolvent <= u.marked + Lits(ds[i]) && t.marked <= u.marked
            && u.marked == t.marked + Lits(ds[i][..k])
            && (if us[i] in ds[i][..k] then u.resolvent <= Falsified(c, us, i) else u.resolvent == t.resolvent)
  {
    hide UnitChain, Marked;
    assert UnitAt(c, ds, us, i) by { UnitOfChain(c, ds, us, i); }
    if k > 0 {
      var d, l := ds[i], ds[i][k-1];
      LiteralsTracked(c, ds, us, i, t, k - 1);
      assert d[..k] == d[..k-1] + [l];
      var u := TrackLiterals(t, d, k - 1);
      LitsAppend(d[..k-1], l);
      assert Falsified(c, us, i + 1) == Falsified(c, us, i) + {Neg(us[i])};
      if l != us[i] {
        OtherUnmarked(c, ds, us, i, t.marked, l);
      } else {
        assert Lits(d) - {l} <= Falsified(c, us, i);
      }
    }
  }

  lemma UnitOfChain(c: set<Lit>, ds: seq<Clause>, us: seq<Lit>, i: nat)
    requires UnitChain(c, ds, us) && i < |us|
    ensures |ds| == |us| + 1 && UnitAt(c, ds, us, i)
  {
  }

  /** The negation of a falsified literal of the clause is marked neither by the
      clauses before nor by the clause itself. */
  lemma OtherUnmarked(c: set<Lit>, ds: seq<Clause>, us: seq<Lit>, i: nat, marked: set<Lit>, l: Lit)
    requires UnitChain(c, ds, us) && i < |us| && Marked(marked, c, us, i + 1)
    requires l in ds[i] && l != us[i]
    ensures Neg(l) !in marked && Neg(l) !in ds[i]
  {
    assert UnitAt(c, ds, us, i);
    assert l in Falsified(c, us, i);
    FalsifiedConsistent(c, ds, us, |us|, l);
    FalsifiedConsistent(c, ds, us, i, l);
    FalsifiedGrows(c, ds, us, i, |us|);
    if j :| i + 1 <= j < |us| && us[j] == Neg(l) {
      assert UnitAt(c, ds, us, j);
      FalsifiedGrows(c, ds, us, i, j);
    }
  }

  // -------------------------------------------------------- rules on graphs

  /** A literal edge for every literal. */
  method CreateLiterals(g: Graph, ls: seq<Lit>) returns (es: seq<Edge>)
    requires g.Valid()
    modifies g
    ensures g.Valid() && old(g.nodes) <= g.nodes && InRange(g.nodes, es) && |es| == |ls|
    ensures forall i :: 0 <= i < |es| ==> Means(Denote(g.nodes, es[i]), OfLiteral(ls[i]))
  {
    hide Indexed, Layered, Means;
    es := [];
    for k := 0 to |ls|
      invariant g.Valid() && old(g.nodes) <= g.nodes && InRange(g.nodes, es) && |es| == k
      invariant forall i :: 0 <= i < k ==> Means(Denote(g.nodes, es[i]), OfLiteral(ls[i]))
    {
      ghost var before := g.nodes;
      var e := g.CreateLiteral(ls[k]);
      forall i | 0 <= i < k
        ensures Denote(g.nodes, es[i]) == Denote(before, es[i])
      {
        DenoteStable(before, g.nodes, es[i]);
      }
      es := es + [e];
    }
  }

  /** The partial interpolant of an original clause in one of the three systems
      that build interpolants directly. */
  method CreateOriginal(g: Graph, c: Clause, t: ClauseType, labels: Labels, gA: bool, gB: bool) returns (r: Edge)
    requires g.Valid() && t != LClause
    modifies g
    ensures g.Valid() && old(g.nodes) <= g.nodes && Builds(g.nodes, r, OriginalForm(c, t, labels, gA, gB))
  {
    hide Indexed, Layered, Means, Conj, Disj;
    if t == AClause && gA {
      MeansItself(Not(Top));
      return FALSE;
    }
    if t == BClause && gB {
      MeansItself(Top);
      return TRUE;
    }
    var literals := SelectGlobals(c, labels, t == BClause);
    var es := CreateLiterals(g, literals);
    ghost var fs := Denotes(g.nodes, es);
    if t == AClause {
      r := g.CreateOrAll(es);
      DisjMeans(fs, FormsOf(literals));
      BuildsMeans(g.nodes, r, Disj(fs), Disj(FormsOf(literals)));
    } else {
      r := g.CreateAndAll(es);
      ConjMeans(fs, FormsOf(literals));
      BuildsMeans(g.nodes, r, Conj(fs), Conj(FormsOf(literals)));
    }
  }

  /** The global literals, or their negations. */
  method SelectGlobals(c: Clause, labels: Labels, negated: bool) returns (literals: seq<Lit>)
    ensures literals == if negated then Negs(Globals(c, labels)) else Globals(c, labels)
  {
    literals := [];
    assert c[..0] == [];
    for i := 0 to |c|
      invariant literals == if negated then Negs(Globals(c[..i], labels)) else Globals(c[..i], labels)
    {
      assert c[..i+1][..i] == c[..i];
      if Var(c[i]) in labels && labels[Var(c[i])] == Global {
        assert Negs(Globals(c[..i], labels) + [c[i]]) == Negs(Globals(c[..i], labels)) + [Neg(c[i])];
        literals := literals + [if negated then Neg(c[i]) else c[i]];
      }
    }
    assert c[..|c|] == c;
  }

  /** Disjunction or conjunction of two edges. */
  method CreateEither(g: Graph, or: bool, e: Edge, d: Edge) returns (r: Edge)
    requires g.Valid() && e.node <= |g.nodes| && d.node <= |g.nodes|
    modifies g
    ensures g.Valid() && old(g.nodes) <= g.nodes
    ensures var f, h := Denote(old(g.nodes), e), Denote(old(g.nodes), d);
            Builds(g.nodes, r, if or then Or(f, h) else And(f, h))
  {
    if or {
      r := g.CreateOr(e, d);
    } else {
      r := g.CreateAnd(e, d);
    }
  }

  /** An edge joined with a literal. */
  method CreateWithLiteral(g: Graph, or: bool, e: Edge, l: Lit) returns (r: Edge)
    requires g.Valid() && e.node <= |g.nodes|
    modifies g
    ensures g.Valid() && old(g.nodes) <= g.nodes
    ensures var f := Denote(old(g.nodes), e);
            Builds(g.nodes, r, if or then Or(f, OfLiteral(l)) else And(f, OfLiteral(l)))
  {
    hide Indexed, Layered, Means;
    ghost var f, nodes0 := Denote(g.nodes, e), g.nodes;
    var d := g.CreateLiteral(l);
    DenoteStable(nodes0, g.nodes, e);
    ghost var h := Denote(g.nodes, d);
    MeansItself(f);
    MeansOr(f, h, f, OfLiteral(l));
    MeansAnd(f, h, f, OfLiteral(l));
    r := CreateEither(g, or, e, d);
    BuildsMeans(g.nodes, r, if or then Or(f, h) else And(f, h),
      if or then Or(f, OfLiteral(l)) else And(f, OfLiteral(l)));
  }

  /** Both partial interpolants joined with a literal, and with each other. */
  method CreateSelected(g: Graph, or: bool, e: Edge, l: Lit, d: Edge, k: Lit) returns (r: Edge)
    requires g.Valid() && e.node <= |g.nodes| && d.node <= |g.nodes|
    modifies g
    ensures g.Valid() && old(g.nodes) <= g.nodes
    ensures var f, h := Denote(old(g.nodes), e), Denote(old(g.nodes), d);
            Builds(g.nodes, r, if or then And(Or(f, OfLiteral(l)), Or(h, OfLiteral(k)))
                               else Or(And(f, OfLiteral(l)), And(h, OfLiteral(k))))
  {
    hide Indexed, Layered, Means;
    ghost var f, h, nodes0 := Denote(g.nodes, e), Denote(g.nodes, d), g.nodes;
    var left := CreateWithLiteral(g, or, e, l);
    ghost var f1 := if or then Or(f, OfLiteral(l)) else And(f, OfLiteral(l));
    DenoteStable(nodes0, g.nodes, d);
    ghost var nodes1 := g.nodes;
    var right := CreateWithLiteral(g, or, d, k);
    ghost var h1 := if or then Or(h, OfLiteral(k)) else And(h, OfLiteral(k));
    BuildsStable(nodes1, g.nodes, left, f1);
    ghost var f2, h2 := Denote(g.nodes, left), Denote(g.nodes, right);
    MeansOr(f2, h2, f1, h1);
    MeansAnd(f2, h2, f1, h1);
    r := CreateEither(g, !or, left, right);
    BuildsMeans(g.nodes, r, if or then And(f2, h2) else Or(f2, h2), if or then And(f1, h1) else Or(f1, h1));
  }

  /** The rule of the symmetric and the two asymmetric systems. */
  method CreateCombined(g: Graph, t: VarType, gA: bool, gB: bool, e: Edge, d: Edge, literal: Lit) returns (r: Edge)
    requires g.Valid() && e.node <= |g.nodes| && d.node <= |g.nodes|
    modifies g
    ensures g.Valid() && old(g.nodes) <= g.nodes
    ensures Builds(g.nodes, r, Combine(t, gA, gB, Denote(old(g.nodes), e), Denote(old(g.nodes), d), literal))
  {
    hide Indexed, Layered, Means;
    if t == ALocal || (t == Global && !gB) {
      r := g.CreateOr(e, d);
    } else if t == BLocal || (t == Global && !gA) {
      r := g.CreateAnd(e, d);
    } else {
      r := CreateSelected(g, true, e, literal, d, Neg(literal));
    }
  }

  method CreateDual(g: Graph, t: VarType, e: Edge, d: Edge, literal: Lit) returns (r: Edge)
    requires g.Valid() && e.node <= |g.nodes| && d.node <= |g.nodes|
    modifies g
    ensures g.Valid() && old(g.nodes) <= g.nodes
    ensures Builds(g.nodes, r, CombineDual(t, Denote(old(g.nodes), e), Denote(old(g.nodes), d), literal))
  {
    hide Indexed, Layered, Means;
    if t == ALocal {
      r := g.CreateAnd(e, d);
    } else if t == BLocal {
      r := g.CreateOr(e, d);
    } else {
      r := CreateSelected(g, false, e, Neg(literal), d, literal);
    }
  }

  // ------------------------------------------------------------------- tracer

  /** The partial interpolants of a clause, one edge per system. */
  datatype CraigData = CraigData(sym: Edge, asym: Edge, dualSym: Edge, dualAsym: Edge, clauseType: ClauseType,
        craigId: nat)

  datatype Nodes = Nodes(sym: seq<Node>, asym: seq<Node>, dualSym: seq<Node>, dualAsym: seq<Node>)

  ghost predicate Opposite(f: Form, g: Form) {
    forall m: Model :: Holds(f, m) <==> !Holds(g, m)
  }

  ghost predicate EdgesIn(n: Nodes, d: CraigData) {
    && Layered(n.sym) && Layered(n.asym) && Layered(n.dualSym) && Layered(n.dualAsym)
    && d.sym.node <= |n.sym|
    && d.asym.node <= |n.asym|
    && d.dualSym.node <= |n.dualSym|
    && d.dualAsym.node <= |n.dualAsym|
  }

  /** In every enabled system the data hold a partial interpolant for `c`; the
      dual symmetric one is the negation of the symmetric one. */
  ghost predicate DataFor(a: Formula, b: Formula, labels: Labels, enabled: set<Construction>, n: Nodes, d: CraigData,
        c: set<Lit>) {
    && EdgesIn(n, d)
    && (Symmetric in enabled ==> Partial(a, b, labels, true, true, Denote(n.sym, d.sym), c))
    && (Asymmetric in enabled ==> Partial(a, b, labels, false, true, Denote(n.asym, d.asym), c))
    && (DualSymmetric in enabled ==> Partial(a, b, labels, true, true, Not(Denote(n.dualSym, d.dualSym)), c))
    && (DualAsymmetric in enabled ==> Partial(a, b, labels, true, false, Denote(n.dualAsym, d.dualAsym), c))
    && (Symmetric in enabled && DualSymmetric in enabled ==>
          Opposite(Denote(n.sym, d.sym), Denote(n.dualSym, d.dualSym)))
  }

  lemma EdgesOf(a: Formula, b: Formula, labels: Labels, enabled: set<Construction>, n: Nodes, d: CraigData, c: set<Lit>)
    requires DataFor(a, b, labels, enabled, n, d, c)
    ensures EdgesIn(n, d)
  {
  }

  ghost predicate AllData(a: Formula, b: Formula, labels: Labels, enabled: set<Construction>, n: Nodes,
        ds: seq<CraigData>, cs: seq<set<Lit>>) {
    && |ds| == |cs|
    && (forall i :: 0 <= i < |ds| ==> DataFor(a, b, labels, enabled, n, ds[i], cs[i]))
    && (forall i, l :: 0 <= i < |cs| && l in cs[i] ==> Var(l) in labels)
  }

  lemma AllDataKept(a: Formula, b: Formula, a1: Formula, b1: Formula, labels: Labels, enabled: set<Construction>,
      n: Nodes, more: Nodes, ds: seq<CraigData>, cs: seq<set<Lit>>)
    requires AllData(a, b, labels, enabled, n, ds, cs) && NodesGrow(n, more) && a <= a1 && b <= b1
    ensures AllData(a1, b1, labels, enabled, more, ds, cs)
  {
    forall i | 0 <= i < |ds|
      ensures DataFor(a1, b1, labels, enabled, more, ds[i], cs[i])
    {
      DataKept(a, b, a1, b1, labels, enabled, n, more, ds[i], cs[i], cs[i]);
    }
  }

  lemma AllDataAppend(a: Formula, b: Formula, labels: Labels, enabled: set<Construction>,
      n: Nodes, ds: seq<CraigData>, cs: seq<set<Lit>>, d: CraigData, c: set<Lit>)
    requires AllData(a, b, labels, enabled, n, ds, cs) && DataFor(a, b, labels, enabled, n, d, c)
    requires forall l :: l in c ==> Var(l) in labels
    ensures AllData(a, b, labels, enabled, n, ds + [d], cs + [c])
  {
  }

  lemma DataAt(a: Formula, b: Formula, labels: Labels, enabled: set<Construction>, n: Nodes, ds: seq<CraigData>,
        cs: seq<set<Lit>>, i: nat)
    requires AllData(a, b, labels, enabled, n, ds, cs) && i < |ds|
    ensures |cs| == |ds| && DataFor(a, b, labels, enabled, n, ds[i], cs[i])
    ensures forall l :: l in cs[i] ==> Var(l) in labels
  {
  }

  /** The clauses of a proof chain. */
  ghost function ChainClauses(clauses: seq<Clause>, chain: seq<nat>): (ds: seq<Clause>)
    requires forall i :: 0 <= i < |chain| ==> 0 < chain[i] <= |clauses|
    ensures |ds| == |chain|
  {
    seq(|chain|, i requires 0 <= i < |chain| => clauses[chain[i] - 1])
  }

  ghost predicate NodesGrow(n: Nodes, more: Nodes) {
    && n.sym <= more.sym && n.asym <= more.asym && n.dualSym <= more.dualSym && n.dualAsym <= more.dualAsym
    && Layered(more.sym) && Layered(more.asym) && Layered(more.dualSym) && Layered(more.dualAsym)
  }

  /** New nodes, more original clauses and weaker clauses keep the data valid. */
  lemma DataKept(a: Formula, b: Formula, a1: Formula, b1: Formula, labels: Labels, enabled: set<Construction>,
      n: Nodes, more: Nodes, d: CraigData, c: set<Lit>, c1: set<Lit>)
    requires DataFor(a, b, labels, enabled, n, d, c) && NodesGrow(n, more) && a <= a1 && b <= b1 && c <= c1
    ensures DataFor(a1, b1, labels, enabled, more, d, c1)
  {
    hide Partial;
    DenoteStable(n.sym, more.sym, d.sym);
    DenoteStable(n.asym, more.asym, d.asym);
    DenoteStable(n.dualSym, more.dualSym, d.dualSym);
    DenoteStable(n.dualAsym, more.dualAsym, d.dualAsym);
    if Symmetric in enabled {
      PartialWeaken(a, b, a1, b1, labels, true, true, Denote(n.sym, d.sym), c, c1);
    }
    if Asymmetric in enabled {
      PartialWeaken(a, b, a1, b1, labels, false, true, Denote(n.asym, d.asym), c, c1);
    }
    if DualSymmetric in enabled {
      PartialWeaken(a, b, a1, b1, labels, true, true, Not(Denote(n.dualSym, d.dualSym)), c, c1);
    }
    if DualAsymmetric in enabled {
      PartialWeaken(a, b, a1, b1, labels, true, false, Denote(n.dualAsym, d.dualAsym), c, c1);
    }
  }

  /** A rule has been applied in every enabled system. */
  ghost predicate RuleApplied(labels: Labels, enabled: set<Construction>, n: Nodes, e: CraigData, d: CraigData, p: Lit,
        more: Nodes, r: CraigData)
    requires EdgesIn(n, e) && EdgesIn(n, d) && Var(p) in labels
  {
    var t := labels[Var(p)];
    && NodesGrow(n, more) && EdgesIn(more, r)
    && (Symmetric in enabled ==>
          Builds(more.sym, r.sym, Combine(t, true, true, Denote(n.sym, e.sym), Denote(n.sym, d.sym), p)))
    && (Asymmetric in enabled ==>
          Builds(more.asym, r.asym, Combine(t, false, true, Denote(n.asym, e.asym), Denote(n.asym, d.asym), p)))
    && (DualSymmetric in enabled ==>
          Builds(more.dualSym, r.dualSym,
                 CombineDual(t, Denote(n.dualSym, e.dualSym), Denote(n.dualSym, d.dualSym), p)))
    && (DualAsymmetric in enabled ==>
          Builds(more.dualAsym, r.dualAsym,
            Combine(t, true, false, Denote(n.dualAsym, e.dualAsym), Denote(n.dualAsym, d.dualAsym), p)))
  }

  lemma JoinedPartial(a: Formula, b: Formula, labels: Labels, gA: bool, gB: bool, f: Form, c: set<Lit>, g: Form,
        d: set<Lit>, p: Lit, h: Form)
    requires Partial(a, b, labels, gA, gB, f, c) && Partial(a, b, labels, gA, gB, g, d) && Var(p) in labels
    requires (gA || gB)
    requires Means(h, Combine(labels[Var(p)], gA, gB, f, g, p))
    ensures Partial(a, b, labels, gA, gB, h, Resolve(c, p, d))
  {
    ResolutionPartial(a, b, labels, gA, gB, f, c, g, d, p);
    PartialMeans(a, b, labels, gA, gB, Combine(labels[Var(p)], gA, gB, f, g, p), h, Resolve(c, p, d));
  }

  lemma JoinedDual(a: Formula, b: Formula, labels: Labels, f: Form, c: set<Lit>, g: Form, d: set<Lit>, p: Lit, h: Form)
    requires Partial(a, b, labels, true, true, Not(f), c) && Partial(a, b, labels, true, true, Not(g), d)
    requires Var(p) in labels
    requires Means(h, CombineDual(labels[Var(p)], f, g, p))
    ensures Partial(a, b, labels, true, true, Not(h), Resolve(c, p, d))
  {
    var t := labels[Var(p)];
    var k := Combine(t, true, true, Not(f), Not(g), p);
    ResolutionPartial(a, b, labels, true, true, Not(f), c, Not(g), d, p);
    forall m: Model
      ensures PartialAt(m, a, b, labels, true, true, Holds(Not(h), m), Resolve(c, p, d))
    {
      DualIsNegation(t, f, g, p, m);
      assert PartialAt(m, a, b, labels, true, true, Holds(k, m), Resolve(c, p, d));
    }
    DualIsNegation(t, f, g, p, {});
    assert Support(Not(h)) == Support(h) && Support(Not(f)) == Support(f) && Support(Not(g)) == Support(g);
  }

  lemma JoinedOpposite(t: VarType, f: Form, g: Form, f1: Form, g1: Form, p: Lit, h: Form, h1: Form)
    requires Opposite(f, f1) && Opposite(g, g1)
    requires Means(h, Combine(t, true, true, f, g, p)) && Means(h1, CombineDual(t, f1, g1, p))
    ensures Opposite(h, h1)
  {
    forall m: Model
      ensures Holds(h, m) <==> !Holds(h1, m)
    {
      DualIsNegation(t, f1, g1, p, m);
      CombineHolds(t, true, true, f, g, p, m);
      CombineHolds(t, true, true, Not(f1), Not(g1), p, m);
      assert Holds(Not(f1), m) == !Holds(f1, m) && Holds(Not(g1), m) == !Holds(g1, m);
    }
  }

  lemma JoinedData(a: Formula, b: Formula, labels: Labels, enabled: set<Construction>, n: Nodes, e: CraigData,
        c: set<Lit>,
      d: CraigData, c1: set<Lit>, p: Lit, more: Nodes, r: CraigData)
    requires DataFor(a, b, labels, enabled, n, e, c) && DataFor(a, b, labels, enabled, n, d, c1) && Var(p) in labels
    requires RuleApplied(labels, enabled, n, e, d, p, more, r)
    ensures DataFor(a, b, labels, enabled, more, r, Resolve(c, p, c1))
  {
    hide Partial, Means, Opposite;
    var t := labels[Var(p)];
    if Symmetric in enabled {
      JoinedPartial(a, b, labels, true, true, Denote(n.sym, e.sym), c, Denote(n.sym, d.sym), c1, p,
        Denote(more.sym, r.sym));
    }
    if Asymmetric in enabled {
      JoinedPartial(a, b, labels, false, true, Denote(n.asym, e.asym), c, Denote(n.asym, d.asym), c1, p,
        Denote(more.asym, r.asym));
    }
    if DualSymmetric in enabled {
      JoinedDual(a, b, labels, Denote(n.dualSym, e.dualSym), c, Denote(n.dualSym, d.dualSym), c1, p,
        Denote(more.dualSym, r.dualSym));
    }
    if DualAsymmetric in enabled {
      JoinedPartial(a, b, labels, true, false, Denote(n.dualAsym, e.dualAsym), c, Denote(n.dualAsym, d.dualAsym), c1, p,
        Denote(more.dualAsym, r.dualAsym));
    }
    if Symmetric in enabled && DualSymmetric in enabled {
      JoinedOpposite(t, Denote(n.sym, e.sym), Denote(n.sym, d.sym), Denote(n.dualSym, e.dualSym),
        Denote(n.dualSym, d.dualSym),
        p, Denote(more.sym, r.sym), Denote(more.dualSym, r.dualSym));
    }
  }

  class CraigTracer {
    const labels: Labels
    const enabled: set<Construction>
    const aigSym: Graph
    const aigAsym: Graph
    const aigDualSym: Graph
    const aigDualAsym: Graph
    var marked: set<Lit>
    var markedHistory: seq<int>
    var craigClauses: seq<Clause>
    var craigInterpolants: seq<CraigData>
    var craigInterpolant: Option<CraigData>
    var craigId: nat
    ghost var a: Formula  // the original clauses on either side
    ghost var b: Formula
    ghost var meant: seq<set<Lit>> // the clauses before deletion

    ghost function Graphs(): set<object> {
      {aigSym, aigAsym, aigDualSym, aigDualAsym}
    }

    ghost predicate Separate()
      reads Graphs()
    {
      && aigSym != aigAsym && aigSym != aigDualSym && aigSym != aigDualAsym
      && aigAsym != aigDualSym && aigAsym != aigDualAsym && aigDualSym != aigDualAsym
      && aigSym.Valid() && aigAsym.Valid() && aigDualSym.Valid() && aigDualAsym.Valid()
    }

    ghost function N(): Nodes
      reads Graphs()
    {
      Nodes(aigSym.nodes, aigAsym.nodes, aigDualSym.nodes, aigDualAsym.nodes)
    }

    /** A clause that has not been deleted, by its id. */
    ghost predicate Alive(id: nat)
      reads this`craigClauses, this`meant
    {
      0 < id <= |craigClauses| && id <= |meant| && Lits(craigClauses[id-1]) == meant[id-1]
    }

    ghost predicate Valid()
      reads this, Graphs()
    {
      && Separate() && marked == {} && markedHistory == []
      && |craigClauses| == |meant| == |craigInterpolants|
      && AllData(a, b, labels, enabled, N(), craigInterpolants, meant)
      && (craigInterpolant.Some? ==> DataFor(a, b, labels, enabled, N(), craigInterpolant.value, {}))
    }

    constructor (labels: Labels, enabled: set<Construction>)
      ensures Valid() && fresh(Graphs()) && this.labels == labels && this.enabled == enabled
      ensures a == {} && b == {} && meant == [] && craigInterpolant == None
    {
      this.labels := labels;
      this.enabled := enabled;
      var sym := new Graph();
      var asym := new Graph();
      var dualSym := new Graph();
      var dualAsym := new Graph();
      aigSym, aigAsym, aigDualSym, aigDualAsym := sym, asym, dualSym, dualAsym;
      marked, markedHistory, craigClauses, craigInterpolants, craigInterpolant, craigId := {}, [], [], [], None, 0;
      a, b, meant := {}, {}, [];
    }

    /** `mark_literal`: whether the negation was marked before. */
    method MarkLiteral(literal: Lit) returns (clash: bool)
      modifies this`marked, this`markedHistory
      ensures clash <==> Neg(literal) in old(marked)
      ensures marked == old(marked) + {literal}
      ensures (forall l :: l in old(marked) ==> Var(l) in old(markedHistory)) ==>
        forall l :: l in marked ==> Var(l) in markedHistory
    {
      clash := Neg(literal) in marked;
      if literal !in marked && !clash {
        markedHistory := markedHistory + [Var(literal)];
      }
      marked := marked + {literal};
    }

    method MarkAll(c: Clause)
      requires marked == {}
      modifies this`marked, this`markedHistory
      ensures marked == Lits(c) && forall l :: l in marked ==> Var(l) in markedHistory
    {
      for k := 0 to |c|
        invariant marked == Lits(c[..k]) && forall l :: l in marked ==> Var(l) in markedHistory
      {
        LitsOfPrefix(c, k);
        var clash := MarkLiteral(c[k]);
      }
      assert c[..|c|] == c;
    }

    method UnmarkAll()
      requires forall l :: l in marked ==> Var(l) in markedHistory
      modifies this`marked, this`markedHistory
      ensures marked == {} && markedHistory == []
    {
      for i := 0 to |markedHistory|
        invariant markedHistory == old(markedHistory)
        invariant forall l :: l in marked ==> Var(l) in markedHistory[i..]
      {
        marked := set l | l in marked && Var(l) != markedHistory[i];
      }
      markedHistory := [];
    }

    /** `extend_interpolant_with_resolution`: `literal` is in the clause of
        `result`, its negation in the clause of `data`. */
    method ExtendInterpolant(result: CraigData, literal: Lit, data: CraigData, ghost c: set<Lit>, ghost d: set<Lit>)
      returns (r: CraigData)
      requires Separate() && Var(literal) in labels
      requires DataFor(a, b, labels, enabled, N(), result, c) && DataFor(a, b, labels, enabled, N(), data, d)
      modifies Graphs()
      ensures Separate() && NodesGrow(old(N()), N()) && DataFor(a, b, labels, enabled, N(), r, Resolve(c, literal, d))
      ensures r.clauseType == (if result.clauseType == data.clauseType then result.clauseType else LClause)
    {
      hide Partial, Means, Indexed, Layered, Opposite, Combine, CombineDual, DataFor, Denote, Resolve;
      EdgesOf(a, b, labels, enabled, N(), result, c);
      EdgesOf(a, b, labels, enabled, N(), data, d);
      var t := labels[Var(literal)];
      r := result;
      if result.clauseType != data.clauseType {
        r := r.(clauseType := LClause);
      }
      if Symmetric in enabled {
        var e := CreateCombined(aigSym, t, true, true, result.sym, data.sym, literal);
        r := r.(sym := e);
      }
      if Asymmetric in enabled {
        var e := CreateCombined(aigAsym, t, false, true, result.asym, data.asym, literal);
        r := r.(asym := e);
      }
      if DualSymmetric in enabled {
        var e := CreateDual(aigDualSym, t, result.dualSym, data.dualSym, literal);
        r := r.(dualSym := e);
      }
      if DualAsymmetric in enabled {
        var e := CreateCombined(aigDualAsym, t, true, false, result.dualAsym, data.dualAsym, literal);
        r := r.(dualAsym := e);
      }
      JoinedData(a, b, labels, enabled, old(N()), result, c, data, d, literal, N(), r);
    }

    /** `create_interpolant_for_clause`. */
    method CreateInterpolant(c: Clause, t: ClauseType) returns (r: CraigData)
      requires Separate() && t != LClause && ProperClause(Lits(c), t, labels)
      requires if t == AClause then Lits(c) in a else Lits(c) in b
      modifies Graphs(), this`craigId
      ensures Separate() && NodesGrow(old(N()), N()) && DataFor(a, b, labels, enabled, N(), r, Lits(c))
      ensures r.clauseType == t && r.craigId == old(craigId) && craigId == old(craigId) + 1
    {
      hide Means, Indexed, Layered, OriginalForm, Partial, ProperClause;
      r := CraigData(TRUE, TRUE, TRUE, TRUE, t, craigId);
      craigId := craigId + 1;
      if Symmetric in enabled {
        var e := CreateOriginal(aigSym, c, t, labels, true, true);
        r := r.(sym := e);
      }
      if Asymmetric in enabled {
        var e := CreateOriginal(aigAsym, c, t, labels, false, true);
        r := r.(asym := e);
      }
      if DualSymmetric in enabled {
        r := r.(dualSym := if t == AClause then TRUE else FALSE);
      }
      if DualAsymmetric in enabled {
        var e := CreateOriginal(aigDualAsym, c, t, labels, true, false);
        r := r.(dualAsym := e);
      }
      OriginalData(a, b, labels, enabled, N(), r, c, t);
    }

    /** `add_original_clause` for a new clause. */
    method AddOriginalClause(id: nat, c: Clause, clauseType: ClauseType)
      requires Valid() && id == |craigClauses| + 1 && clauseType != LClause && ProperClause(Lits(c), clauseType, labels)
      modifies this, Graphs()
      ensures Valid() && a == old(a) + (if clauseType == AClause then {Lits(c)} else {})
      ensures b == old(b) + (if clauseType == AClause then {} else {Lits(c)})
      ensures craigClauses == old(craigClauses) + [c] && meant == old(meant) + [Lits(c)]
    {
      hide AllData, DataFor, Layered, Indexed, ProperClause, NodesGrow, Lits;
      ghost var a0, b0 := a, b;
      if clauseType == AClause {
        a := a + {Lits(c)};
      } else {
        b := b + {Lits(c)};
      }
      ProperLabels(c, clauseType, labels);
      ghost var before := N();
      var interpolant := CreateInterpolant(c, clauseType);
      AllDataKept(a0, b0, a, b, labels, enabled, before, N(), craigInterpolants, meant);
      KeepConclusion(a0, b0, a, b, labels, enabled, before, N(), craigInterpolant);
      Register(c, interpolant);
    }

    /** A deleted clause is put back. */
    method RestoreClause(id: nat, c: Clause)
      requires Valid() && 0 < id <= |craigClauses| && Lits(c) == meant[id-1]
      modifies this`craigClauses
      ensures Valid() && craigClauses == old(craigClauses)[id - 1 := c] && Alive(id)
    {
      hide AllData, DataFor;
      craigClauses := craigClauses[id - 1 := c];
    }

    method DeleteClause(id: nat)
      requires Valid() && 0 < id <= |craigClauses|
      modifies this`craigClauses
      ensures Valid() && craigClauses == old(craigClauses)[id - 1 := []]
    {
      hide AllData, DataFor;
      craigClauses := craigClauses[id - 1 := []];
    }

    /** Resolve with one clause of the chain, on every literal whose negation is
        marked. */
    method ResolveWith(id: nat, interpolant0: CraigData, ghost t: Track) returns (interpolant: CraigData)
      requires Separate() && Alive(id) && marked == t.marked && |craigClauses| == |meant| == |craigInterpolants|
      requires AllData(a, b, labels, enabled, N(), craigInterpolants, meant)
      requires DataFor(a, b, labels, enabled, N(), interpolant0, t.resolvent)
      requires forall l :: l in marked ==> Var(l) in markedHistory
      modifies Graphs(), this`marked, this`markedHistory
      ensures Separate() && NodesGrow(old(N()), N()) && AllData(a, b, labels, enabled, N(), craigInterpolants, meant)
      ensures forall l :: l in marked ==> Var(l) in markedHistory
      ensures var u := TrackLiterals(t, craigClauses[id-1], |craigClauses[id-1]|);
              marked == u.marked && DataFor(a, b, labels, enabled, N(), interpolant, u.resolvent)
    {
      hide AllData, DataFor, Layered, Indexed, NodesGrow, Resolve;
      var d := craigClauses[id-1];
      interpolant := interpolant0;
      DataAt(a, b, labels, enabled, N(), craigInterpolants, meant, id - 1);
      Grown(a, b, labels, enabled, N(), craigInterpolants[id-1], meant[id-1]);
      for k := 0 to |d|
        invariant Separate() && NodesGrow(old(N()), N())
        invariant AllData(a, b, labels, enabled, N(), craigInterpolants, meant)
        invariant forall l :: l in marked ==> Var(l) in markedHistory
        invariant marked == TrackLiterals(t, d, k).marked
        invariant DataFor(a, b, labels, enabled, N(), interpolant, TrackLiterals(t, d, k).resolvent)
      {
        var l := d[k];
        var clash := MarkLiteral(l);
        if !clash {
          continue;
        }
        assert l in meant[id-1] by { assert l in Lits(d); }
        ghost var before := N();
        DataAt(a, b, labels, enabled, N(), craigInterpolants, meant, id - 1);
        assert Neg(Neg(l)) == l;
        interpolant := ExtendInterpolant(interpolant, Neg(l), craigInterpolants[id-1], TrackLiterals(t, d, k).resolvent,
          meant[id-1]);
        AllDataKept(a, b, a, b, labels, enabled, before, N(), craigInterpolants, meant);
        GrowTrans(old(N()), before, N());
      }
    }

    /** Resolve along the chain, last clause first. */
    method FollowChain(chain: seq<nat>) returns (interpolant: CraigData)
      requires Separate() && |craigClauses| == |meant| == |craigInterpolants| && |chain| >= 1 && marked == {}
      requires markedHistory == []
      requires AllData(a, b, labels, enabled, N(), craigInterpolants, meant)
      requires forall i :: 0 <= i < |chain| ==> 0 < chain[i] <= |craigClauses| && Alive(chain[i])
      modifies Graphs(), this`marked, this`markedHistory
      ensures Separate() && NodesGrow(old(N()), N()) && marked == {} && markedHistory == []
      ensures DataFor(a, b, labels, enabled, N(), interpolant,
        TrackChain(ChainClauses(craigClauses, chain), 0).resolvent)
    {
      hide AllData, DataFor, Layered, Indexed, NodesGrow, Resolve, TrackLiterals;
      ghost var ds, nodes0 := ChainClauses(craigClauses, chain), N();
      var n := |chain|;
      MarkAll(craigClauses[chain[n-1] - 1]);
      DataAt(a, b, labels, enabled, N(), craigInterpolants, meant, chain[n-1] - 1);
      Grown(a, b, labels, enabled, N(), craigInterpolants[chain[n-1] - 1], meant[chain[n-1] - 1]);
      interpolant := craigInterpolants[chain[n-1] - 1];
      var i := n - 1;
      while i > 0
        invariant 0 <= i < n && Separate() && NodesGrow(nodes0, N())
        invariant AllData(a, b, labels, enabled, N(), craigInterpolants, meant)
        invariant marked == TrackChain(ds, i).marked && forall l :: l in marked ==> Var(l) in markedHistory
        invariant DataFor(a, b, labels, enabled, N(), interpolant, TrackChain(ds, i).resolvent)
        decreases i
      {
        i := i - 1;
        ghost var before := N();
        interpolant := ResolveWith(chain[i], interpolant, TrackChain(ds, i + 1));
        GrowTrans(nodes0, before, N());
      }
      UnmarkAll();
    }

    /** Store a new clause with its partial interpolants. */
    method Register(c: Clause, interpolant: CraigData)
      requires Valid() && DataFor(a, b, labels, enabled, N(), interpolant, Lits(c))
      requires forall l :: l in c ==> Var(l) in labels
      modifies this`craigClauses, this`craigInterpolants, this`meant
      ensures Valid() && craigClauses == old(craigClauses) + [c] && meant == old(meant) + [Lits(c)]
    {
      hide AllData, DataFor, Layered, Indexed;
      AllDataAppend(a, b, labels, enabled, N(), craigInterpolants, meant, interpolant, Lits(c));
      craigClauses := craigClauses + [c];
      craigInterpolants := craigInterpolants + [interpolant];
      meant := meant + [Lits(c)];
    }

    /** `add_derived_clause`: the partial interpolants of a derived clause come
        from its proof chain. */
    method AddDerivedClause(id: nat, c: Clause, chain: seq<nat>)
      requires Valid() && id == |craigClauses| + 1 && |chain| >= 1
      requires forall i :: 0 <= i < |chain| ==> 0 < chain[i] <= |craigClauses| && Alive(chain[i])
      requires ValidChain(Lits(c), ChainClauses(craigClauses, chain))
      requires forall l :: l in c ==> Var(l) in labels
      modifies this, Graphs()
      ensures Valid() && a == old(a) && b == old(b)
      ensures craigClauses == old(craigClauses) + [c] && meant == old(meant) + [Lits(c)]
    {
      hide AllData, DataFor, Layered, Indexed, NodesGrow, ValidChain, TrackChain, Lits;
      ghost var ds, before := ChainClauses(craigClauses, chain), N();
      var interpolant := FollowChain(chain);
      ghost var resolvent := TrackChain(ds, 0).resolvent;
      ValidChainTracked(Lits(c), ds);
      Grown(a, b, labels, enabled, N(), interpolant, resolvent);
      DataKept(a, b, a, b, labels, enabled, N(), N(), interpolant, resolvent, Lits(c));
      KeepConclusion(a, b, a, b, labels, enabled, before, N(), craigInterpolant);
      AllDataKept(a, b, a, b, labels, enabled, before, N(), craigInterpolants, meant);
      Register(c, interpolant);
    }

    /** `conclude_unsat` for a single global conflict: the empty clause. */
    method ConcludeConflict(id: nat)
      requires Valid() && Alive(id) && craigClauses[id-1] == []
      modifies this`craigInterpolant
      ensures Valid() && craigInterpolant.Some?
    {
      hide AllData, DataFor;
      assert Lits([]) == {};
      DataAt(a, b, labels, enabled, N(), craigInterpolants, meant, id - 1);
      craigInterpolant := Some(craigInterpolants[id-1]);
    }

    /** The clauses for one system, if they are wanted. */
    method BuildPart(system: Construction, build: bool, nextFreeVariable0: int, ghost base: int)
      returns (part: Part, nextFreeVariable: int, ghost f: Form)
      requires Valid() && craigInterpolant.Some? && 0 < base <= nextFreeVariable0
      requires (forall v :: v in labels ==> v < base) && (build ==> system in enabled)
      ensures nextFreeVariable0 <= nextFreeVariable && (part.cnfType == NoCnf <==> !build)
      ensures build ==>
        Interpolates(a, b, labels, f) && Encodes(part.cnfType, part.cnf, base, nextFreeVariable0, nextFreeVariable, f)
      ensures build ==> part.cnfType != Normal ==> nextFreeVariable0 == nextFreeVariable
      ensures build ==> f == FormOf(N(), craigInterpolant.value, system)
      ensures !build ==> nextFreeVariable == nextFreeVariable0
    {
      hide AllData, Encodes, Interpolates, Indexed, Layered, Partial;
      part, nextFreeVariable, f := Part([], NoCnf), nextFreeVariable0, Top;
      if !build {
        return;
      }
      var d := craigInterpolant.value;
      f := FormOf(N(), d, system);
      FormInterpolates(a, b, labels, enabled, N(), d, system, base);
      var cnfType, cnf;
      match system {
        case Symmetric =>
          cnfType, cnf, nextFreeVariable := aigSym.CreateCnf(d.sym, nextFreeVariable0, base);
        case Asymmetric =>
          cnfType, cnf, nextFreeVariable := aigAsym.CreateCnf(d.asym, nextFreeVariable0, base);
        case DualSymmetric =>
          cnfType, cnf, nextFreeVariable := aigDualSym.CreateCnf(d.dualSym, nextFreeVariable0, base);
          cnfType,
            cnf := Invert(cnfType, cnf, base, nextFreeVariable0, nextFreeVariable, Denote(aigDualSym.nodes, d.dualSym));
        case DualAsymmetric =>
          cnfType, cnf, nextFreeVariable := aigDualAsym.CreateCnf(d.dualAsym, nextFreeVariable0, base);
      }
      part := Part(cnf, cnfType);
    }

    /** The parts of the systems that are wanted, in a fixed order, with numbers
        that do not overlap. */
    method BuildParts(wanted: set<Construction>, nextFreeVariable0: int, ghost base: int)
      returns (parts: seq<Part>, nextFreeVariable: int, ghost fs: seq<Form>, ghost bounds: seq<int>)
      requires Valid() && craigInterpolant.Some? && 0 < base <= nextFreeVariable0
      requires (forall v :: v in labels ==> v < base) && wanted <= enabled
      ensures |bounds| == |parts| + 1 && |fs| == |parts|
      ensures AllEncode(parts, fs, bounds, base) && bounds[0] == nextFreeVariable0
      ensures bounds[|parts|] == nextFreeVariable
      ensures forall i :: 0 <= i < |fs| ==> Interpolates(a, b, labels, fs[i])
      ensures fs == FormsOfWanted(N(), craigInterpolant.value, wanted)
    {
      hide AllData, AllEncode, Interpolates, Partial, Indexed, Layered;
      parts, nextFreeVariable, fs, bounds := [], nextFreeVariable0, [], [nextFreeVariable0];
      NoParts(nextFreeVariable0, base);
      parts, nextFreeVariable, fs, bounds := AddPart(parts, nextFreeVariable, fs, bounds, Symmetric, wanted, base);
      parts, nextFreeVariable, fs, bounds := AddPart(parts, nextFreeVariable, fs, bounds, Asymmetric, wanted, base);
      parts, nextFreeVariable, fs, bounds := AddPart(parts, nextFreeVariable, fs, bounds, DualSymmetric, wanted, base);
      parts, nextFreeVariable, fs, bounds := AddPart(parts, nextFreeVariable, fs, bounds, DualAsymmetric, wanted, base);
    }

    /** One more system, if it is wanted. */
    method AddPart(parts0: seq<Part>, nextFreeVariable0: int, ghost fs0: seq<Form>, ghost bounds0: seq<int>,
        system: Construction, wanted: set<Construction>, ghost base: int)
      returns (parts: seq<Part>, nextFreeVariable: int, ghost fs: seq<Form>, ghost bounds: seq<int>)
      requires Valid() && craigInterpolant.Some? && 0 < base <= nextFreeVariable0
      requires (forall v :: v in labels ==> v < base) && wanted <= enabled
      requires |bounds0| == |parts0| + 1 && |fs0| == |parts0|
      requires AllEncode(parts0, fs0, bounds0, base) && bounds0[|parts0|] == nextFreeVariable0
      requires forall i :: 0 <= i < |fs0| ==> Interpolates(a, b, labels, fs0[i])
      ensures |bounds| == |parts| + 1 && |fs| == |parts| && bounds[0] == bounds0[0]
      ensures AllEncode(parts, fs, bounds, base) && bounds[|parts|] == nextFreeVariable
      ensures nextFreeVariable0 <= nextFreeVariable
      ensures forall i :: 0 <= i < |fs| ==> Interpolates(a, b, labels, fs[i])
      ensures fs == fs0 + if system in wanted then [FormOf(N(), craigInterpolant.value, system)] else []
    {
      hide AllData, AllEncode, Interpolates, Partial, Indexed, Layered, Encodes;
      var part;
      ghost var f;
      part, nextFreeVariable, f := BuildPart(system, system in wanted, nextFreeVariable0, base);
      if part.cnfType == NoCnf {
        parts, fs, bounds := parts0, fs0, bounds0;
      } else {
        MoreParts(parts0, fs0, bounds0, base, part, f, nextFreeVariable);
        parts, fs, bounds := parts0 + [part], fs0 + [f], bounds0 + [nextFreeVariable];
      }
    }

    /** `create_craig_interpolant`: the clauses represent an interpolant.  A request
        for one system gives that of this system; the others give the conjunction,
        the disjunction, the first smallest or the first largest of those of all
        enabled systems. */
    method CreateCraigInterpolant(interpolant: CraigInterpolant, nextFreeVariable0: int)
      returns (cnfType: CnfType, cnf: seq<Clause>, nextFreeVariable: int, ghost f: Form, ghost lo: int, ghost hi: int,
               ghost built: seq<Part>, ghost fs: seq<Form>, ghost bounds: seq<int>)
      requires Valid() && nextFreeVariable0 > 0 && forall v :: v in labels ==> v < nextFreeVariable0
      ensures interpolant == NoInterpolant ==> cnfType == NoCnf
      ensures forall s :: interpolant == Only(s) ==> (cnfType == NoCnf <==> craigInterpolant == None || s !in enabled)
      ensures interpolant in {Union, Intersection, Smallest, Largest} ==>
        (cnfType == NoCnf <==> craigInterpolant == None || enabled == {})
      ensures cnfType != NoCnf ==> Interpolates(a, b, labels, f) && Encodes(cnfType, cnf, nextFreeVariable0, lo, hi, f)
      ensures cnfType != NoCnf ==> nextFreeVariable0 <= lo <= hi <= nextFreeVariable
      ensures cnfType != NoCnf && interpolant == Only(Symmetric) ==>
        f == Denote(aigSym.nodes, craigInterpolant.value.sym)
      ensures cnfType != NoCnf && interpolant == Only(Asymmetric) ==>
        f == Denote(aigAsym.nodes, craigInterpolant.value.asym)
      ensures cnfType != NoCnf && interpolant == Only(DualSymmetric) ==>
        f == Not(Denote(aigDualSym.nodes, craigInterpolant.value.dualSym))
      ensures cnfType != NoCnf && interpolant == Only(DualAsymmetric) ==>
        f == Denote(aigDualAsym.nodes, craigInterpolant.value.dualAsym)
      ensures cnfType != NoCnf ==> AllEncode(built, fs, bounds, nextFreeVariable0)
      ensures cnfType != NoCnf && interpolant in {Union, Intersection, Smallest, Largest} ==>
        OfAll(fs, N(), craigInterpolant.value, enabled)
      ensures cnfType != NoCnf && interpolant == Union ==> Conjoins(f, fs)
      ensures cnfType != NoCnf && interpolant == Intersection ==> Disjoins(f, fs)
      ensures cnfType != NoCnf && (interpolant == Smallest || interpolant == Largest) ==>
        exists k :: 0 <= k < |built| == |fs| && Extremal(built, k, interpolant == Largest) &&
          built[k] == Part(cnf, cnfType) && f == fs[k]
    {
      hide AllData, AllEncode, Interpolates, Partial, Indexed, Layered, Encodes, Joined, Conjoins, Disjoins,
           FormsOfWanted, Extremal, OfAll;
      cnfType, cnf, nextFreeVariable := NoCnf, [], nextFreeVariable0;
      f, lo, hi, built, fs, bounds := Top, 0, 0, [], [], [];
      if craigInterpolant == None {
        return;
      }
      ghost var base := nextFreeVariable0;
      var wanted := Wanted(interpolant) * enabled;
      var parts;
      parts, nextFreeVariable, fs, bounds := BuildParts(wanted, nextFreeVariable0, base);
      built := parts;
      WantedForms(N(), craigInterpolant.value, wanted);
      WantedSystems(interpolant, enabled);
      AllForms(N(), craigInterpolant.value, enabled);
      if |parts| == 0 {
        return;
      }
      var k := 0;
      if |parts| >= 2 {
        if interpolant == Union || interpolant == Intersection {
          AllSupportBelow(a, b, labels, fs, base);
          lo := nextFreeVariable0;
          cnfType, cnf, nextFreeVariable := Join(parts, interpolant == Union, nextFreeVariable, fs, bounds, base);
          f, hi := Joined(fs, interpolant == Union), nextFreeVariable;
          JoinedInterpolates(a, b, labels, fs, interpolant == Union);
          return;
        }
        k := Extreme(parts, interpolant == Largest);
      }
      PartFacts(parts, fs, bounds, base, k);
      cnfType, cnf := parts[k].cnfType, parts[k].cnf;
      f, lo, hi := fs[k], bounds[k], bounds[k+1];
      if |parts| == 1 {
        assert fs == [f];
        OneJoined(f, fs);
        OneExtremal(parts, interpolant == Largest);
      }
      assert built[k] == Part(cnf, cnfType) && f == fs[k];
    }
  }

  /** Part `k` is the first with the fewest clauses, or the most. */
  ghost predicate Extremal(parts: seq<Part>, k: nat, largest: bool)
    requires k < |parts|
  {
    && (forall i :: 0 <= i < |parts| ==>
          if largest then |parts[i].cnf| <= |parts[k].cnf| else |parts[k].cnf| <= |parts[i].cnf|)
    && (forall i :: 0 <= i < k ==> |parts[i].cnf| != |parts[k].cnf|)
  }

  lemma OneExtremal(parts: seq<Part>, largest: bool)
    requires |parts| == 1
    ensures Extremal(parts, 0, largest)
  {
  }

  method Extreme(parts: seq<Part>, largest: bool) returns (k: nat)
    requires parts != []
    ensures k < |parts| && Extremal(parts, k, largest)
  {
    k := 0;
    for j := 1 to |parts|
      invariant k < j
      invariant forall i :: 0 <= i < j ==>
        if largest then |parts[i].cnf| <= |parts[k].cnf| else |parts[k].cnf| <= |parts[i].cnf|
      invariant forall i :: 0 <= i < k ==> |parts[i].cnf| != |parts[k].cnf|
    {
      if (if largest then |parts[k].cnf| < |parts[j].cnf| else |parts[j].cnf| < |parts[k].cnf|) {
        k := j;
      }
    }
  }

  lemma WantedForms(n: Nodes, d: CraigData, wanted: set<Construction>)
    requires EdgesIn(n, d)
    ensures FormsOfWanted(n, d, wanted) == [] <==> wanted == {}
    ensures forall c :: wanted == {c} ==> FormsOfWanted(n, d, wanted) == [FormOf(n, d, c)]
  {
    hide FormOf;
    if FormsOfWanted(n, d, wanted) == [] {
      forall c: Construction
        ensures c !in wanted
      {
        assert c == Symmetric || c == Asymmetric || c == DualSymmetric || c == DualAsymmetric;
      }
    }
  }

  lemma AllSupportBelow(a: Formula, b: Formula, labels: Labels, fs: seq<Form>, base: int)
    requires forall i :: 0 <= i < |fs| ==> Interpolates(a, b, labels, fs[i])
    requires forall v :: v in labels ==> v < base
    ensures forall i :: 0 <= i < |fs| ==> SupportBelow(fs[i], base)
  {
    forall i | 0 <= i < |fs|
      ensures SupportBelow(fs[i], base)
    {
      assert Interpolates(a, b, labels, fs[i]);
    }
  }

  ghost predicate Conjoins(f: Form, fs: seq<Form>) {
    forall m: Model :: Holds(f, m) <==> forall i :: 0 <= i < |fs| ==> Holds(fs[i], m)
  }

  ghost predicate Disjoins(f: Form, fs: seq<Form>) {
    forall m: Model :: Holds(f, m) <==> exists i :: 0 <= i < |fs| && Holds(fs[i], m)
  }

  lemma OneJoined(f: Form, fs: seq<Form>)
    requires fs == [f]
    ensures Conjoins(f, fs) && Disjoins(f, fs)
  {
    forall m: Model
      ensures Holds(f, m) <==> forall i :: 0 <= i < |fs| ==> Holds(fs[i], m)
      ensures Holds(f, m) <==> exists i :: 0 <= i < |fs| && Holds(fs[i], m)
    {
      assert fs[0] == f;
    }
  }

  /** The conjunction and the disjunction of interpolants are interpolants. */
  lemma JoinedInterpolates(a: Formula, b: Formula, labels: Labels, fs: seq<Form>, union: bool)
    requires |fs| > 0 && forall i :: 0 <= i < |fs| ==> Interpolates(a, b, labels, fs[i])
    ensures Interpolates(a, b, labels, Joined(fs, union))
    ensures union ==> Conjoins(Joined(fs, union), fs)
    ensures !union ==> Disjoins(Joined(fs, union), fs)
  {
    forall m: Model
      ensures union ==> (Holds(Joined(fs, union), m) <==> forall i :: 0 <= i < |fs| ==> Holds(fs[i], m))
      ensures !union ==> (Holds(Joined(fs, union), m) <==> exists i :: 0 <= i < |fs| && Holds(fs[i], m))
      ensures Models(m, a) ==> Holds(Joined(fs, union), m)
      ensures !(Models(m, b) && Holds(Joined(fs, union), m))
    {
      ConjHolds(fs, m);
      DisjHolds(fs, m);
      assert Interpolates(a, b, labels, fs[0]);
    }
    JoinedSupport(fs, union);
    forall v | v in Support(Joined(fs, union))
      ensures v in labels && labels[v] == Global
    {
      var i :| 0 <= i < |fs| && v in Support(fs[i]);
      assert Interpolates(a, b, labels, fs[i]);
    }
  }

  lemma PartFacts(parts: seq<Part>, fs: seq<Form>, bounds: seq<int>, base: int, k: nat)
    requires AllEncode(parts, fs, bounds, base) && k < |parts|
    ensures Encodes(parts[k].cnfType, parts[k].cnf, base, bounds[k], bounds[k+1], fs[k]) && parts[k].cnfType != NoCnf
    ensures bounds[0] <= bounds[k] <= bounds[k+1] <= bounds[|parts|]
  {
    assert EncodesPart(parts, fs, bounds, base, k);
    BoundsGrow(parts, fs, bounds, base);
  }

  datatype CraigInterpolant =
    | NoInterpolant | Only(system: Construction) | Intersection | Union | Smallest | Largest

  /** The systems that go into the result. */
  function Wanted(interpolant: CraigInterpolant): set<Construction> {
    match interpolant
    case NoInterpolant => {}
    case Only(system) => {system}
    case _ => {Symmetric, Asymmetric, DualSymmetric, DualAsymmetric}
  }

  /** The forms of all enabled systems, each once. */
  ghost predicate OfAll(fs: seq<Form>, n: Nodes, d: CraigData, enabled: set<Construction>)
    requires EdgesIn(n, d)
  {
    && |fs| == |enabled|
    && (Symmetric in enabled ==> Denote(n.sym, d.sym) in fs)
    && (Asymmetric in enabled ==> Denote(n.asym, d.asym) in fs)
    && (DualSymmetric in enabled ==> Not(Denote(n.dualSym, d.dualSym)) in fs)
    && (DualAsymmetric in enabled ==> Denote(n.dualAsym, d.dualAsym) in fs)
  }

  lemma WantedSystems(interpolant: CraigInterpolant, enabled: set<Construction>)
    ensures interpolant == NoInterpolant ==> Wanted(interpolant) * enabled == {}
    ensures forall s :: interpolant == Only(s) ==> Wanted(interpolant) * enabled == if s in enabled then {s} else {}
    ensures interpolant in {Union, Intersection, Smallest, Largest} ==> Wanted(interpolant) * enabled == enabled
  {
    if !interpolant.NoInterpolant? && !interpolant.Only? {
      forall s: Construction
        ensures s in Wanted(interpolant)
      {
        assert s.Symmetric? || s.Asymmetric? || s.DualSymmetric? || s.DualAsymmetric?;
      }
    }
  }

  /** The systems in a fixed order. */
  lemma SystemsCounted(enabled: set<Construction>)
    ensures |enabled| == (if Symmetric in enabled then 1 else 0) + (if Asymmetric in enabled then 1 else 0)
      + (if DualSymmetric in enabled then 1 else 0) + (if DualAsymmetric in enabled then 1 else 0)
  {
    var r0 := enabled - {Symmetric};
    var r1 := r0 - {Asymmetric};
    var r2 := r1 - {DualSymmetric};
    var r3 := r2 - {DualAsymmetric};
    OneSystemLess(enabled, Symmetric);
    OneSystemLess(r0, Asymmetric);
    OneSystemLess(r1, DualSymmetric);
    OneSystemLess(r2, DualAsymmetric);
    forall s: Construction
      ensures s !in r3
    {
      assert s.Symmetric? || s.Asymmetric? || s.DualSymmetric? || s.DualAsymmetric?;
    }
    assert r3 == {};
  }

  lemma OneSystemLess(systems: set<Construction>, s: Construction)
    ensures |systems| == |systems - {s}| + if s in systems then 1 else 0
  {
    assert s in systems ==> systems == (systems - {s}) + {s};
    assert s !in systems ==> systems - {s} == systems;
  }

  lemma AllForms(n: Nodes, d: CraigData, enabled: set<Construction>)
    requires EdgesIn(n, d)
    ensures OfAll(FormsOfWanted(n, d, enabled), n, d, enabled)
  {
    hide Denote;
    SystemsCounted(enabled);
    var fs := FormsOfWanted(n, d, enabled);
    var i := if Symmetric in enabled then 1 else 0;
    var j := i + if Asymmetric in enabled then 1 else 0;
    var k := j + if DualSymmetric in enabled then 1 else 0;
    assert Symmetric in enabled ==> fs[0] == FormOf(n, d, Symmetric);
    assert Asymmetric in enabled ==> fs[i] == FormOf(n, d, Asymmetric);
    assert DualSymmetric in enabled ==> fs[j] == FormOf(n, d, DualSymmetric);
    assert DualAsymmetric in enabled ==> fs[k] == FormOf(n, d, DualAsymmetric);
  }

  ghost function FormsOfWanted(n: Nodes, d: CraigData, wanted: set<Construction>): (fs: seq<Form>)
    requires EdgesIn(n, d)
  {
    (if Symmetric in wanted then [FormOf(n, d, Symmetric)] else [])
    + (if Asymmetric in wanted then [FormOf(n, d, Asymmetric)] else [])
    + (if DualSymmetric in wanted then [FormOf(n, d, DualSymmetric)] else [])
    + (if DualAsymmetric in wanted then [FormOf(n, d, DualAsymmetric)] else [])
  }

  lemma NoParts(lo: int, base: int)
    requires base <= lo
    ensures AllEncode([], [], [lo], base)
  {
  }

  lemma MoreParts(parts: seq<Part>, fs: seq<Form>, bounds: seq<int>, base: int, part: Part, f: Form, hi: int)
    requires AllEncode(parts, fs, bounds, base) && Encodes(part.cnfType, part.cnf, base, bounds[|parts|], hi, f)
    requires bounds[|parts|] <= hi && (part.cnfType != Normal ==> bounds[|parts|] == hi)
    ensures AllEncode(parts + [part], fs + [f], bounds + [hi], base)
  {
    var ps, gs, bs := parts + [part], fs + [f], bounds + [hi];
    forall k | 0 <= k < |ps|
      ensures EncodesPart(ps, gs, bs, base, k)
    {
      if k < |parts| {
        assert EncodesPart(parts, fs, bounds, base, k);
      }
    }
  }

  ghost predicate Interpolates(a: Formula, b: Formula, labels: Labels, f: Form) {
    && (forall m: Model :: Models(m, a) ==> Holds(f, m))
    && (forall m: Model :: !(Models(m, b) && Holds(f, m)))
    && (forall v :: v in Support(f) ==> v in labels && labels[v] == Global)
  }

  /** The interpolant of one system. */
  ghost function FormOf(n: Nodes, d: CraigData, system: Construction): Form
    requires EdgesIn(n, d)
  {
    match system
    case Symmetric => Denote(n.sym, d.sym)
    case Asymmetric => Denote(n.asym, d.asym)
    case DualSymmetric => Not(Denote(n.dualSym, d.dualSym))
    case DualAsymmetric => Denote(n.dualAsym, d.dualAsym)
  }

  lemma FormInterpolates(a: Formula, b: Formula, labels: Labels, enabled: set<Construction>, n: Nodes, d: CraigData,
        system: Construction, base: int)
    requires DataFor(a, b, labels, enabled, n, d, {}) && system in enabled && forall v :: v in labels ==> v < base
    ensures Interpolates(a, b, labels, FormOf(n, d, system))
    ensures SupportBelow(FormOf(n, d, system), base)
    ensures system == DualSymmetric ==> SupportBelow(Denote(n.dualSym, d.dualSym), base)
  {
    var f := FormOf(n, d, system);
    var gA, gB := system != Asymmetric, system != DualAsymmetric;
    assert Partial(a, b, labels, gA, gB, f, {});
    forall m: Model
      ensures Models(m, a) ==> Holds(f, m)
      ensures !(Models(m, b) && Holds(f, m))
    {
      EmptyClauseInterpolant(a, b, labels, gA, gB, f, m);
    }
    assert Support(Not(Denote(n.dualSym, d.dualSym))) == Support(Denote(n.dualSym, d.dualSym));
  }

  /** The clauses of the negation: constants are exchanged, and the last literal
      is negated. */
  method Invert(t: CnfType, cnf0: seq<Clause>, ghost base: int, ghost lo: int, ghost hi: int, ghost f: Form)
    returns (cnfType: CnfType, cnf: seq<Clause>)
    requires Encodes(t, cnf0, base, lo, hi, f)
    ensures Encodes(cnfType, cnf, base, lo, hi, Not(f)) && (cnfType == Normal <==> t == Normal) && cnfType != NoCnf
  {
    NotHolds(f);
    if t == Constant1 {
      return Constant0, [[]];
    } else if t == Constant0 {
      return Constant1, [];
    } else {
      var n := |cnf0| - 1;
      cnf := cnf0[n := [Neg(cnf0[n][0])]];
      assert cnf[..n] == cnf0[..n];
      return Normal, cnf;
    }
  }

  lemma NotHolds(f: Form)
    ensures forall m: Model :: Holds(Not(f), m) <==> !Holds(f, m)
    ensures Support(Not(f)) == Support(f)
  {
  }

  lemma ValidChainTracked(c: set<Lit>, ds: seq<Clause>)
    requires ValidChain(c, ds)
    ensures |ds| > 0 && TrackChain(ds, 0).resolvent <= c
  {
    var us :| UnitChain(c, ds, us);
    ChainTracked(c, ds, us, 0);
    assert Falsified(c, us, 0) == c;
  }

  lemma ProperLabels(c: Clause, t: ClauseType, labels: Labels)
    requires ProperClause(Lits(c), t, labels)
    ensures forall l :: l in c ==> Var(l) in labels
  {
  }

  lemma Grown(a: Formula, b: Formula, labels: Labels, enabled: set<Construction>, n: Nodes, d: CraigData, c: set<Lit>)
    requires DataFor(a, b, labels, enabled, n, d, c)
    ensures NodesGrow(n, n)
  {
  }

  lemma GrowTrans(n: Nodes, m: Nodes, k: Nodes)
    requires NodesGrow(n, m) && NodesGrow(m, k)
    ensures NodesGrow(n, k)
  {
  }

  lemma KeepConclusion(a: Formula, b: Formula, a1: Formula, b1: Formula, labels: Labels, enabled: set<Construction>,
      n: Nodes, more: Nodes, d: Option<CraigData>)
    requires d.Some? ==> DataFor(a, b, labels, enabled, n, d.value, {})
    requires NodesGrow(n, more) && a <= a1 && b <= b1
    ensures d.Some? ==> DataFor(a1, b1, labels, enabled, more, d.value, {})
  {
    if d.Some? {
      DataKept(a, b, a1, b1, labels, enabled, n, more, d.value, {}, {});
    }
  }

  lemma OriginalData(a: Formula, b: Formula, labels: Labels, enabled: set<Construction>, n: Nodes, d: CraigData,
        c: Clause, t: ClauseType)
    requires EdgesIn(n, d) && ProperClause(Lits(c), t, labels)
    requires if t == AClause then Lits(c) in a else Lits(c) in b
    requires Symmetric in enabled ==> Builds(n.sym, d.sym, OriginalForm(c, t, labels, true, true))
    requires Asymmetric in enabled ==> Builds(n.asym, d.asym, OriginalForm(c, t, labels, false, true))
    requires DualSymmetric in enabled ==> d.dualSym == if t == AClause then TRUE else FALSE
    requires DualAsymmetric in enabled ==> Builds(n.dualAsym, d.dualAsym, OriginalForm(c, t, labels, true, false))
    ensures DataFor(a, b, labels, enabled, n, d, Lits(c))
  {
    hide Partial, ProperClause;
    OriginalPartial(a, b, labels, true, true, c, t);
    OriginalPartial(a, b, labels, false, true, c, t);
    OriginalPartial(a, b, labels, true, false, c, t);
    if Symmetric in enabled {
      PartialMeans(a, b, labels, true, true, OriginalForm(c, t, labels, true, true), Denote(n.sym, d.sym), Lits(c));
    }
    if Asymmetric in enabled {
      PartialMeans(a, b, labels, false, true, OriginalForm(c, t, labels, false, true), Denote(n.asym, d.asym), Lits(c));
    }
    if DualSymmetric in enabled {
      ConstantEdges(n.dualSym, d.dualSym);
      DualConstant(t);
      PartialMeans(a, b, labels, true, true, OriginalForm(c, t, labels, true, true), Not(Denote(n.dualSym, d.dualSym)),
        Lits(c));
    }
    if DualAsymmetric in enabled {
      PartialMeans(a, b, labels, true, false, OriginalForm(c, t, labels, true, false), Denote(n.dualAsym, d.dualAsym),
        Lits(c));
    }
  }

  lemma DualConstant(t: ClauseType)
    ensures Means(Not(Top), Not(Top)) && Means(Not(Not(Top)), Top)
  {
    assert Support(Not(Top)) == Support(Top);
    forall m: Model
      ensures Holds(Not(Not(Top)), m) <==> Holds(Top, m)
    {
      assert Holds(Not(Top), m) == !Holds(Top, m);
    }
  }
}
