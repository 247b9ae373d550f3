/** Craig interpolants from resolution chains: four systems of partial
    interpolants, and their combination into clauses. */
module Craig {
  import opened Logic
  import opened Aig

  datatype VarType = ALocal | BLocal | Global
  datatype ClauseType = AClause | BClause | LClause
  datatype Construction = Symmetric | Asymmetric | DualSymmetric | DualAsymmetric

  type Labels = map<int, VarType>

  // ----------------------------------------------------- partial interpolants

  /** The literals of `c` on one side, with the global ones if `globals` holds. */
  ghost function Side(c: set<Lit>, labels: Labels, own: VarType, globals: bool): set<Lit> {
    set l | l in c && Var(l) in labels && (labels[Var(l)] == own || (globals && labels[Var(l)] == Global))
  }

  /** Where the A-clauses hold, the interpolant or the A-side of `c` is true; where
      the B-clauses and the interpolant hold, the B-side of `c` is. */
  ghost predicate PartialAt(m: Model, a: Formula, b: Formula, labels: Labels, gA: bool, gB: bool, i: bool,
        c: set<Lit>) {
    && (Models(m, a) && !i ==> SatLits(Side(c, labels, ALocal, gA), m))
    && (Models(m, b) && i ==> SatLits(Side(c, labels, BLocal, gB), m))
  }

  /** `f` is a partial interpolant for `c`: it has global variables only. */
  ghost predicate Partial(a: Formula, b: Formula, labels: Labels, gA: bool, gB: bool, f: Form, c: set<Lit>) {
    && (forall m: Model :: PartialAt(m, a, b, labels, gA, gB, Holds(f, m), c))
    && (forall v :: v in Support(f) ==> v in labels && labels[v] == Global)
  }

  /** A partial interpolant for the empty clause is an interpolant. */
  lemma EmptyClauseInterpolant(a: Formula, b: Formula, labels: Labels, gA: bool, gB: bool, f: Form, m: Model)
    requires Partial(a, b, labels, gA, gB, f, {})
    ensures Models(m, a) ==> Holds(f, m)
    ensures !(Models(m, b) && Holds(f, m))
  {
    assert PartialAt(m, a, b, labels, gA, gB, Holds(f, m), {});
  }

  lemma SideGrows(c: set<Lit>, d: set<Lit>, labels: Labels, own: VarType, globals: bool, m: Model)
    requires c <= d && SatLits(Side(c, labels, own, globals), m)
    ensures SatLits(Side(d, labels, own, globals), m)
  {
    var l :| l in Side(c, labels, own, globals) && True(l, m);
    assert l in Side(d, labels, own, globals);
  }

  /** Fewer assumptions and a larger clause keep a partial interpolant. */
  lemma PartialWeaken(a: Formula, b: Formula, a1: Formula, b1: Formula, labels: Labels, gA: bool, gB: bool, f: Form,
        c: set<Lit>, d: set<Lit>)
    requires Partial(a, b, labels, gA, gB, f, c) && a <= a1 && b <= b1 && c <= d
    ensures Partial(a1, b1, labels, gA, gB, f, d)
  {
    forall m: Model
      ensures PartialAt(m, a1, b1, labels, gA, gB, Holds(f, m), d)
    {
      assert PartialAt(m, a, b, labels, gA, gB, Holds(f, m), c);
      if Models(m, a1) && !Holds(f, m) {
        SideGrows(c, d, labels, ALocal, gA, m);
      }
      if Models(m, b1) && Holds(f, m) {
        SideGrows(c, d, labels, BLocal, gB, m);
      }
    }
  }

  lemma PartialMeans(a: Formula, b: Formula, labels: Labels, gA: bool, gB: bool, f: Form, g: Form, c: set<Lit>)
    requires Partial(a, b, labels, gA, gB, f, c) && Means(g, f)
    ensures Partial(a, b, labels, gA, gB, g, c)
  {
    forall m: Model
      ensures PartialAt(m, a, b, labels, gA, gB, Holds(g, m), c)
    {
      assert PartialAt(m, a, b, labels, gA, gB, Holds(f, m), c);
    }
  }

  // ------------------------------------------------------------ original clauses

  ghost predicate ProperClause(c: set<Lit>, t: ClauseType, labels: Labels) {
    && t != LClause
    && (forall l :: l in c ==> Var(l) in labels && labels[Var(l)] != if t == AClause then BLocal else ALocal)
  }

  /** The literals with a global variable, in order. */
  function Globals(c: Clause, labels: Labels): seq<Lit> {
    if c == [] then []
    else
      var l := c[|c|-1];
      Globals(c[..|c|-1], labels) + (if Var(l) in labels && labels[Var(l)] == Global then [l] else [])
  }

  lemma {:induction false} GlobalsHas(c: Clause, labels: Labels)
    ensures forall l :: l in Globals(c, labels) <==> l in c && Var(l) in labels && labels[Var(l)] == Global
  {
    if c != [] {
      GlobalsHas(c[..|c|-1], labels);
    }
  }

  function FormsOf(ls: seq<Lit>): (fs: seq<Form>)
    ensures |fs| == |ls|
  {
    seq(|ls|, i requires 0 <= i < |ls| => OfLiteral(ls[i]))
  }

  function Negs(ls: seq<Lit>): seq<Lit> {
    seq(|ls|, i requires 0 <= i < |ls| => Neg(ls[i]))
  }

  /** The partial interpolant of an original clause: false for A-clauses and true
      for B-clauses, except that the asymmetric systems take over the global
      literals of one side. */
  function OriginalForm(c: Clause, t: ClauseType, labels: Labels, gA: bool, gB: bool): Form {
    if t == AClause then (if gA then Not(Top) else Disj(FormsOf(Globals(c, labels))))
    else (if gB then Top else Conj(FormsOf(Negs(Globals(c, labels)))))
  }

  lemma LiteralHolds(l: Lit, m: Model)
    ensures Holds(OfLiteral(l), m) <==> True(l, m)
    ensures Support(OfLiteral(l)) == {Var(l)}
  {
    assert Holds(Atom(Var(l)), m) <==> Var(l) in m;
    assert Support(Atom(Var(l))) == {Var(l)};
  }

  lemma OriginalPartial(a: Formula, b: Formula, labels: Labels, gA: bool, gB: bool, c: Clause, t: ClauseType)
    requires ProperClause(Lits(c), t, labels) && (gA || gB)
    requires if t == AClause then Lits(c) in a else Lits(c) in b
    ensures Partial(a, b, labels, gA, gB, OriginalForm(c, t, labels, gA, gB), Lits(c))
  {
    var f := OriginalForm(c, t, labels, gA, gB);
    OriginalSupport(labels, gA, gB, c, t);
    forall m: Model
      ensures PartialAt(m, a, b, labels, gA, gB, Holds(f, m), Lits(c))
    {
      OriginalHolds(labels, gA, gB, c, t, m);
      if t == AClause && Models(m, a) {
        var l :| l in Lits(c) && True(l, m);
        assert labels[Var(l)] == ALocal || labels[Var(l)] == Global;
        assert l in Side(Lits(c), labels, ALocal, gA) || (!gA && Holds(f, m));
      }
      if t == AClause && Holds(f, m) {
        var l :| l in c && Var(l) in labels && labels[Var(l)] == Global && True(l, m);
        assert l in Side(Lits(c), labels, BLocal, gB);
      }
      if t == BClause && Models(m, b) {
        var l :| l in Lits(c) && True(l, m);
        assert labels[Var(l)] == BLocal || labels[Var(l)] == Global;
        assert l in Side(Lits(c), labels, BLocal, gB) || (!gB && !Holds(f, m));
      }
      if t == BClause && !Holds(f, m) {
        var l :| l in c && Var(l) in labels && labels[Var(l)] == Global && True(l, m);
        assert l in Side(Lits(c), labels, ALocal, gA);
      }
    }
  }

  ghost predicate SomeGlobalTrue(c: Clause, labels: Labels, m: Model) {
    exists l :: l in c && Var(l) in labels && labels[Var(l)] == Global && True(l, m)
  }

  lemma OriginalHolds(labels: Labels, gA: bool, gB: bool, c: Clause, t: ClauseType, m: Model)
    requires t != LClause
    ensures t == AClause ==> (Holds(OriginalForm(c, t, labels, gA, gB), m) <==> !gA && SomeGlobalTrue(c, labels, m))
    ensures t == BClause ==> (Holds(OriginalForm(c, t, labels, gA, gB), m) <==> gB || !SomeGlobalTrue(c, labels, m))
  {
    var gs := Globals(c, labels);
    GlobalsHas(c, labels);
    assert !Holds(Not(Top), m) by { assert Holds(Top, m); }
    DisjHolds(FormsOf(gs), m);
    ConjHolds(FormsOf(Negs(gs)), m);
    forall i | 0 <= i < |gs|
      ensures Holds(FormsOf(gs)[i], m) <==> True(gs[i], m)
      ensures Holds(FormsOf(Negs(gs))[i], m) <==> !True(gs[i], m)
    {
      LiteralHolds(gs[i], m);
      LiteralHolds(Neg(gs[i]), m);
    }
    if SomeGlobalTrue(c, labels, m) {
      var l :| l in c && Var(l) in labels && labels[Var(l)] == Global && True(l, m);
      var i :| 0 <= i < |gs| && gs[i] == l;
      assert Holds(FormsOf(gs)[i], m);
    } else {
      forall i | 0 <= i < |gs|
        ensures !True(gs[i], m)
      {
        assert gs[i] in gs;
      }
    }
  }

  lemma OriginalSupport(labels: Labels, gA: bool, gB: bool, c: Clause, t: ClauseType)
    ensures forall v :: v in Support(OriginalForm(c, t, labels, gA, gB)) ==> v in labels && labels[v] == Global
  {
    var gs := Globals(c, labels);
    GlobalsHas(c, labels);
    DisjSupport(FormsOf(gs));
    ConjSupport(FormsOf(Negs(gs)));
    assert Support(Not(Top)) == Support(Top);
    forall i | 0 <= i < |gs|
      ensures Support(FormsOf(gs)[i]) == {Var(gs[i])} && Support(FormsOf(Negs(gs))[i]) == {Var(gs[i])}
      ensures Var(gs[i]) in labels && labels[Var(gs[i])] == Global
    {
      LiteralHolds(gs[i], {});
      LiteralHolds(Neg(gs[i]), {});
      assert gs[i] in gs;
    }
  }

  // ---------------------------------------------------------------- resolution

  function Resolve(c: set<Lit>, p: Lit, d: set<Lit>): set<Lit> {
    (c - {p}) + (d - {Neg(p)})
  }

  /** How two partial interpolants are joined when `p` is resolved upon: local
      pivots and the asymmetric systems take the disjunction on the A-side and the
      conjunction on the B-side, symmetric ones select by the pivot. */
  function Combine(t: VarType, gA: bool, gB: bool, f: Form, g: Form, p: Lit): Form {
    if t == ALocal || (t == Global && !gB) then Or(f, g)
    else if t == BLocal || (t == Global && !gA) then And(f, g)
    else And(Or(f, OfLiteral(p)), Or(g, OfLiteral(Neg(p))))
  }

  lemma OrHolds(f: Form, g: Form, m: Model)
    ensures Holds(Or(f, g), m) <==> Holds(f, m) || Holds(g, m)
    ensures Support(Or(f, g)) == Support(f) + Support(g)
  {
    assert Holds(Not(f), m) == !Holds(f, m) && Holds(Not(g), m) == !Holds(g, m);
    assert Holds(And(Not(f), Not(g)), m) == (Holds(Not(f), m) && Holds(Not(g), m));
    assert Support(And(Not(f), Not(g))) == Support(Not(f)) + Support(Not(g));
    assert Support(Not(f)) == Support(f) && Support(Not(g)) == Support(g);
  }

  lemma CombineHolds(t: VarType, gA: bool, gB: bool, f: Form, g: Form, p: Lit, m: Model)
    ensures Holds(Combine(t, gA, gB, f, g, p), m) <==>
      if t == ALocal || (t == Global && !gB) then Holds(f, m) || Holds(g, m)
      else if t == BLocal || (t == Global && !gA) then Holds(f, m) && Holds(g, m)
      else if True(p, m) then Holds(g, m) else Holds(f, m)
    ensures Support(Combine(t, gA, gB, f, g, p)) <= Support(f) + Support(g) + if t == Global then {Var(p)} else {}
  {
    OrHolds(f, g, m);
    OrHolds(f, OfLiteral(p), m);
    OrHolds(g, OfLiteral(Neg(p)), m);
    LiteralHolds(p, m);
    LiteralHolds(Neg(p), m);
  }

  /** One side of the resolvent is true unless the pivot decides. */
  lemma SideResolve(c: set<Lit>, d: set<Lit>, p: Lit, labels: Labels, own: VarType, globals: bool, m: Model)
    requires Var(p) in labels
    ensures var other := labels[Var(p)] != own && !(globals && labels[Var(p)] == Global);
            var r := SatLits(Side(Resolve(c, p, d), labels, own, globals), m);
            && (SatLits(Side(c, labels, own, globals), m) && (!True(p, m) || other) ==> r)
            && (SatLits(Side(d, labels, own, globals), m) && (True(p, m) || other) ==> r)
  {
    var r := Side(Resolve(c, p, d), labels, own, globals);
    if SatLits(Side(c, labels, own, globals), m) {
      var l :| l in Side(c, labels, own, globals) && True(l, m);
      assert l != p ==> l in r;
    }
    if SatLits(Side(d, labels, own, globals), m) {
      var l :| l in Side(d, labels, own, globals) && True(l, m);
      assert l != Neg(p) ==> l in r;
    }
  }

  /** Resolution keeps partial interpolants, in all systems. */
  lemma ResolutionPartial(a: Formula, b: Formula, labels: Labels, gA: bool, gB: bool, f: Form, c: set<Lit>, g: Form,
        d: set<Lit>, p: Lit)
    requires Partial(a, b, labels, gA, gB, f, c) && Partial(a, b, labels, gA, gB, g, d)
    requires Var(p) in labels && (gA || gB)
    ensures Partial(a, b, labels, gA, gB, Combine(labels[Var(p)], gA, gB, f, g, p), Resolve(c, p, d))
  {
    var t := labels[Var(p)];
    var h := Combine(t, gA, gB, f, g, p);
    forall m: Model
      ensures PartialAt(m, a, b, labels, gA, gB, Holds(h, m), Resolve(c, p, d))
    {
      CombineHolds(t, gA, gB, f, g, p, m);
      SideResolve(c, d, p, labels, ALocal, gA, m);
      SideResolve(c, d, p, labels, BLocal, gB, m);
      assert PartialAt(m, a, b, labels, gA, gB, Holds(f, m), c);
      assert PartialAt(m, a, b, labels, gA, gB, Holds(g, m), d);
    }
    CombineHolds(t, gA, gB, f, g, p, {});
  }

  /** The dual symmetric rule. */
  function CombineDual(t: VarType, f: Form, g: Form, p: Lit): Form {
    if t == ALocal then And(f, g)
    else if t == BLocal then Or(f, g)
    else Or(And(f, OfLiteral(Neg(p))), And(g, OfLiteral(p)))
  }

  /** The dual symmetric rule computes the negation of the symmetric one. */
  lemma DualIsNegation(t: VarType, f: Form, g: Form, p: Lit, m: Model)
    ensures Holds(CombineDual(t, f, g, p), m) <==> !Holds(Combine(t, true, true, Not(f), Not(g), p), m)
    ensures Support(CombineDual(t, f, g, p)) <= Support(f) + Support(g) + if t == Global then {Var(p)} else {}
  {
    CombineHolds(t, true, true, Not(f), Not(g), p, m);
    assert Holds(Not(f), m) == !Holds(f, m) && Holds(Not(g), m) == !Holds(g, m);
    OrHolds(f, g, m);
    OrHolds(And(f, OfLiteral(Neg(p))), And(g, OfLiteral(p)), m);
    LiteralHolds(p, m);
    LiteralHolds(Neg(p), m);
    assert Holds(And(f, OfLiteral(Neg(p))), m) == (Holds(f, m) && Holds(OfLiteral(Neg(p)), m));
    assert Holds(And(g, OfLiteral(p)), m) == (Holds(g, m) && Holds(OfLiteral(p), m));
    assert Support(And(f, OfLiteral(Neg(p)))) == Support(f) + Support(OfLiteral(Neg(p)));
    assert Support(And(g, OfLiteral(p))) == Support(g) + Support(OfLiteral(p));
  }
}
