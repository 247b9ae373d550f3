/** Model reconstruction: clauses removed with a witness are put back, last one
    first, by making the witness true where the clause is not satisfied. */
module Reconstruction {
  import opened Logic

  /** An extension stack entry: the witness cube and the removed clause. */
  datatype Entry = Entry(cube: seq<Lit>, id: nat, clause: Clause)

  function SetTrue(l: Lit, m: Model): Model {
    if l > 0 then m + {Var(l)} else m - {Var(l)}
  }

  /** Make the literals of `w` true, last one first. */
  function MakeTrue(w: seq<Lit>, m: Model): Model {
    if w == [] then m else MakeTrue(w[..|w|-1], SetTrue(w[|w|-1], m))
  }

  function ReplayEntry(e: Entry, m: Model): Model {
    if SatClause(e.clause, m) then m else MakeTrue(e.cube, m)
  }

  function Replay(es: seq<Entry>, m: Model): Model {
    if es == [] then m else Replay(es[..|es|-1], ReplayEntry(es[|es|-1], m))
  }

  lemma {:induction false} ReplayConcat(a: seq<Entry>, b: seq<Entry>, m: Model)
    ensures Replay(a + b, m) == Replay(a, Replay(b, m))
    decreases |b|
  {
    if b == [] {
      assert a + b == a;
    } else {
      assert (a + b)[..|a + b| - 1] == a + b[..|b|-1];
      ReplayConcat(a, b[..|b|-1], ReplayEntry(b[|b|-1], m));
    }
  }

  /** A witness without complementary literals becomes true, and nothing else
      changes. */
  lemma {:induction false} MakeTrueElsewhere(w: seq<Lit>, m: Model)
    requires forall i, j :: 0 <= i < j < |w| ==> w[i] != Neg(w[j])
    ensures forall l :: l in w ==> True(l, MakeTrue(w, m))
    ensures forall k: Lit :: k !in w && Neg(k) !in w ==> True(k, MakeTrue(w, m)) == True(k, m)
    decreases |w|
  {
    if w != [] {
      var l, rest := w[|w|-1], w[..|w|-1];
      MakeTrueElsewhere(rest, SetTrue(l, m));
      assert l in rest || (l !in rest && Neg(l) !in rest);
      assert forall k :: k in w ==> k in rest || k == l;
      forall k: Lit | k !in w && Neg(k) !in w
        ensures True(k, MakeTrue(w, m)) == True(k, m)
      {
        assert k !in rest && Neg(k) !in rest && Var(k) != Var(l);
      }
    }
  }

  // -------------------------------------------------------- reconstruction

  /** Replaying `es` turns every model of `after` into one of `before`. */
  ghost predicate Reconstructs(after: Formula, es: seq<Entry>, before: Formula) {
    forall m: Model :: Models(m, after) ==> Models(Replay(es, m), before)
  }

  lemma ReconstructsCompose(f: Formula, es: seq<Entry>, g: Formula, fs: seq<Entry>, h: Formula)
    requires Reconstructs(g, es, f) && Reconstructs(h, fs, g)
    ensures Reconstructs(h, es + fs, f)
  {
    forall m: Model | Models(m, h)
      ensures Models(Replay(es + fs, m), f)
    {
      ReplayConcat(es, fs, m);
    }
  }

  /** Removing the clause of `e` from a formula that leaves `f` is undone by `e`. */
  ghost predicate WitnessRedundant(f: Formula, e: Entry) {
    forall m: Model :: Models(m, f) && !SatClause(e.clause, m) ==>
      Models(MakeTrue(e.cube, m), f) && SatClause(e.clause, MakeTrue(e.cube, m))
  }

  lemma WitnessReconstructs(f: Formula, e: Entry)
    requires WitnessRedundant(f, e)
    ensures Reconstructs(f, [e], f + {Lits(e.clause)})
  {
    forall m: Model | Models(m, f)
      ensures Models(Replay([e], m), f + {Lits(e.clause)})
    {
      var n := ReplayEntry(e, m);
      assert [e][..0] == [] && Replay([e], m) == Replay([], n) == n;
      SatLitsOfClause(e.clause, n);
    }
  }

  // --------------------------------------------------------------- histories

  /** What a simplifier may do to the irredundant clauses. */
  datatype Step =
    | Weaken(entry: Entry)         // remove a clause, keeping a witness for it
    | Strengthen(clause: set<Lit>) // add an implied clause
    | Forget(clause: set<Lit>)     // remove a clause implied by the others

  ghost function After(f: Formula, s: Step): Formula {
    match s
    case Weaken(e) => f - {Lits(e.clause)}
    case Strengthen(c) => f + {c}
    case Forget(c) => f - {c}
  }

  ghost predicate Allowed(f: Formula, s: Step) {
    match s
    case Weaken(e) => WitnessRedundant(f - {Lits(e.clause)}, e)
    case Strengthen(c) => Consequence(f, c)
    case Forget(c) => Consequence(f - {c}, c)
  }

  ghost function Run(f: Formula, steps: seq<Step>): Formula
    decreases |steps|
  {
    if steps == [] then f else Run(After(f, steps[0]), steps[1..])
  }

  ghost predicate AllowedRun(f: Formula, steps: seq<Step>)
    decreases |steps|
  {
    steps == [] || (Allowed(f, steps[0]) && AllowedRun(After(f, steps[0]), steps[1..]))
  }

  ghost function Pushed(steps: seq<Step>): seq<Entry> {
    if steps == [] then []
    else (if steps[0].Weaken? then [steps[0].entry] else []) + Pushed(steps[1..])
  }

  lemma StepReconstructs(f: Formula, s: Step)
    requires Allowed(f, s)
    ensures Reconstructs(After(f, s), if s.Weaken? then [s.entry] else [], f)
  {
    match s
    case Weaken(e) =>
      WitnessReconstructs(f - {Lits(e.clause)}, e);
      forall m: Model | Models(m, After(f, s))
        ensures Models(Replay([e], m), f)
      {
        assert f <= After(f, s) + {Lits(e.clause)};
      }
    case Strengthen(c) =>
    case Forget(c) =>
  }

  lemma StepImplied(f: Formula, s: Step, m: Model)
    requires Allowed(f, s) && Models(m, f)
    ensures Models(m, After(f, s))
  {
  }

  /** Replaying what a run pushed repairs every model of its result, which then
      satisfies the original formula and every clause removed on the way. */
  lemma {:induction false} RunReconstructs(f: Formula, steps: seq<Step>)
    requires AllowedRun(f, steps)
    ensures Reconstructs(Run(f, steps), Pushed(steps), f)
    decreases |steps|
  {
    if steps != [] {
      var g := After(f, steps[0]);
      StepReconstructs(f, steps[0]);
      RunReconstructs(g, steps[1..]);
      ReconstructsCompose(f, if steps[0].Weaken? then [steps[0].entry] else [], g, Pushed(steps[1..]), Run(f, steps));
    } else {
      assert forall m: Model :: Replay([], m) == m;
    }
  }

  lemma {:induction false} RunKeepsModels(f: Formula, steps: seq<Step>, m: Model)
    requires AllowedRun(f, steps) && Models(m, f)
    ensures Models(m, Run(f, steps))
    decreases |steps|
  {
    if steps != [] {
      StepImplied(f, steps[0], m);
      RunKeepsModels(After(f, steps[0]), steps[1..], m);
    }
  }

  /** Every formula on the way, in particular with the clause about to be
      removed in it, is satisfied by the reconstructed model. */
  lemma {:induction false} ReconstructedEverywhere(f: Formula, steps: seq<Step>, k: nat, m: Model)
    requires AllowedRun(f, steps) && k <= |steps| && Models(m, f)
    ensures Models(m, Run(f, steps[..k]))
    decreases |steps|
  {
    if k > 0 {
      StepImplied(f, steps[0], m);
      ReconstructedEverywhere(After(f, steps[0]), steps[1..], k - 1, m);
      assert steps[..k][0] == steps[0] && steps[..k][1..] == steps[1..][..k-1];
    }
  }

  lemma RunEquisatisfiable(f: Formula, steps: seq<Step>)
    requires AllowedRun(f, steps)
    ensures Satisfiable(f) <==> Satisfiable(Run(f, steps))
  {
    RunReconstructs(f, steps);
    if m :| Models(m, f) {
      RunKeepsModels(f, steps, m);
    }
  }
}
