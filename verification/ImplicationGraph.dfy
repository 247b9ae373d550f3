/** The implication graph behind conflict analysis: the assigned literals in
    assignment order and, for each assigned variable, its value, decision
    level, reason and trail position.  `FirstUip` is the reference definition
    that the conflict analyses are proved against. */
module ImplicationGraph {
  import opened Logic

  datatype Graph = Graph(
    trail: seq<Lit>,
    value: map<int, bool>,
    level: map<int, nat>,
    reason: map<int, Option<Clause>>,
    pos: map<int, nat>)

  predicate TrueIn(l: Lit, value: map<int, bool>) {
    Var(l) in value && value[Var(l)] == (l > 0)
  }

  predicate FalseIn(l: Lit, value: map<int, bool>) {
    Var(l) in value && value[Var(l)] != (l > 0)
  }

  predicate IsTrue(l: Lit, g: Graph) {
    TrueIn(l, g.value)
  }

  predicate IsFalse(l: Lit, g: Graph) {
    FalseIn(l, g.value)
  }

  predicate AtLevel(l: Lit, g: Graph, lv: nat) {
    Var(l) in g.level && g.level[Var(l)] == lv
  }

  ghost predicate Falsified(c: set<Lit>, g: Graph) {
    forall l :: l in c ==> IsFalse(l, g)
  }

  /** The maps have one domain, and the trail lists it without repetition. */
  ghost predicate Indexed(g: Graph) {
    && g.value.Keys == g.level.Keys == g.reason.Keys == g.pos.Keys
    && (forall v :: v in g.pos ==> g.pos[v] < |g.trail| && Var(g.trail[g.pos[v]]) == v)
    && (forall i :: 0 <= i < |g.trail| ==>
          Var(g.trail[i]) in g.pos && g.pos[Var(g.trail[i])] == i && IsTrue(g.trail[i], g))
  }

  /** `l` is falsified before position `i`, on no higher level than `lv`. */
  predicate FalseBefore(l: Lit, g: Graph, i: nat, lv: nat) {
    && IsFalse(l, g)
    && Var(l) in g.pos && g.pos[Var(l)] < i
    && Var(l) in g.level && g.level[Var(l)] <= lv
  }

  /** The literal at trail position `i` is a decision opening its level, or it
      is forced: its reason contains it, and the other literals of the reason
      are falsified before it. */
  ghost predicate Justified(g: Graph, i: nat)
    requires i < |g.trail| && Indexed(g)
  {
    var t := g.trail[i];
    match g.reason[Var(t)]
    case None => forall j :: 0 <= j < i ==> !AtLevel(g.trail[j], g, g.level[Var(t)])
    case Some(c) => t in c && forall l :: l in c && l != t ==> FalseBefore(l, g, i, g.level[Var(t)])
  }

  ghost predicate WellFormed(g: Graph) {
    Indexed(g) && forall i :: 0 <= i < |g.trail| ==> Justified(g, i)
  }

  ghost predicate ReasonsFrom(g: Graph, f: seq<Clause>) {
    forall v :: v in g.reason && g.reason[v].Some? ==> g.reason[v].value in f
  }

  // ---------------------------------------------------------------- first UIP

  ghost predicate AtMostOne(c: set<Lit>, g: Graph, lv: nat) {
    forall l, k :: l in c && k in c && AtLevel(l, g, lv) && AtLevel(k, g, lv) ==> l == k
  }

  ghost predicate Reaches(c: set<Lit>, g: Graph, lv: nat) {
    exists l :: l in c && AtLevel(l, g, lv)
  }

  /** The resolvent of `c`, which contains `l`, and `r`, which contains `-l`. */
  ghost function Resolvent(c: set<Lit>, l: Lit, r: set<Lit>): set<Lit> {
    (c - {l}) + (r - {Neg(l)})
  }

  /** Whether the analysis resolves `c` at the trail literal `t`. */
  predicate ResolvesAt(c: set<Lit>, g: Graph, lv: nat, t: Lit) {
    Neg(t) in c && AtLevel(t, g, lv) && Var(t) in g.reason && g.reason[Var(t)].Some?
  }

  ghost function ResolveAt(c: set<Lit>, g: Graph, t: Lit): set<Lit>
    requires Var(t) in g.reason && g.reason[Var(t)].Some?
  {
    Resolvent(c, Neg(t), Lits(g.reason[Var(t)].value))
  }

  /** Resolve away the literals of `c` on level `lv` whose negations are among
      the first `k` trail literals, latest first, until at most one is left. */
  ghost function FirstUip(c: set<Lit>, g: Graph, lv: nat, k: nat): set<Lit>
    requires k <= |g.trail|
    decreases k
  {
    if k == 0 || AtMostOne(c, g, lv) then c
    else
      var t := g.trail[k-1];
      if ResolvesAt(c, g, lv, t) then FirstUip(ResolveAt(c, g, t), g, lv, k-1)
      else FirstUip(c, g, lv, k-1)
  }

  ghost predicate Entails(f: seq<Clause>, c: set<Lit>) {
    forall m: Model :: SatAll(f, m) ==> SatLits(c, m)
  }

  lemma ResolventSound(f: seq<Clause>, c: set<Lit>, l: Lit, r: Clause)
    requires Entails(f, c) && r in f
    ensures Entails(f, Resolvent(c, l, Lits(r)))
  {
    forall m: Model | SatAll(f, m)
      ensures SatLits(Resolvent(c, l, Lits(r)), m)
    {
      assert SatClause(r, m);
      var x :| x in c && True(x, m);
      var y :| y in r && True(y, m);
      assert y in Lits(r);
      assert True(l, m) != True(Neg(l), m);
      assert (if x != l then x else y) in Resolvent(c, l, Lits(r));
    }
  }

  /** The literals of `c` on level `lv` are falsified before position `k`. */
  ghost predicate Before(c: set<Lit>, g: Graph, lv: nat, k: nat) {
    forall l :: l in c && AtLevel(l, g, lv) ==> Var(l) in g.pos && g.pos[Var(l)] < k
  }

  /** What one resolution step of conflict analysis preserves. */
  lemma StepKeeps(c: set<Lit>, g: Graph, lv: nat, k: nat)
    requires WellFormed(g) && 0 < k <= |g.trail|
    requires Falsified(c, g) && Before(c, g, lv, k)
    requires ResolvesAt(c, g, lv, g.trail[k-1])
    ensures var d := ResolveAt(c, g, g.trail[k-1]);
            Falsified(d, g) && Before(d, g, lv, k-1) && (!AtMostOne(c, g, lv) ==> Reaches(d, g, lv))
  {
    var t := g.trail[k-1];
    var r := g.reason[Var(t)].value;
    var d := ResolveAt(c, g, t);
    assert Justified(g, k-1);
    forall l | l in d
      ensures IsFalse(l, g)
      ensures AtLevel(l, g, lv) ==> Var(l) in g.pos && g.pos[Var(l)] < k-1
    {
      if l !in c || l == Neg(t) {
        assert l in r && l != t;
        assert FalseBefore(l, g, k-1, g.level[Var(t)]);
      }
    }
    if !AtMostOne(c, g, lv) {
      var x, y :| x in c && y in c && AtLevel(x, g, lv) && AtLevel(y, g, lv) && x != y;
      assert (if x == Neg(t) then y else x) in d;
    }
  }

  /** With several literals of `c` on `lv` left, the latest of them is not the
      decision of the level; so a position that is not resolved is irrelevant. */
  lemma SkipKeeps(c: set<Lit>, g: Graph, lv: nat, k: nat)
    requires WellFormed(g) && 0 < k <= |g.trail|
    requires Falsified(c, g) && Before(c, g, lv, k)
    requires !ResolvesAt(c, g, lv, g.trail[k-1])
    requires !AtMostOne(c, g, lv)
    ensures Before(c, g, lv, k-1)
  {
    var t := g.trail[k-1];
    assert Justified(g, k-1);
    var x, y :| x in c && y in c && AtLevel(x, g, lv) && AtLevel(y, g, lv) && x != y;
    assert AtLevel(g.trail[g.pos[Var(x)]], g, lv) && AtLevel(g.trail[g.pos[Var(y)]], g, lv);
  }

  /** The first-UIP clause is falsified, and it has exactly one literal on the
      conflict level. */
  lemma {:induction false} FirstUipShape(c: set<Lit>, g: Graph, lv: nat, k: nat)
    requires WellFormed(g) && k <= |g.trail|
    requires Falsified(c, g) && Before(c, g, lv, k) && Reaches(c, g, lv)
    ensures var u := FirstUip(c, g, lv, k);
            Falsified(u, g) && Reaches(u, g, lv) && AtMostOne(u, g, lv)
    decreases k
  {
    hide WellFormed, Falsified;
    if k > 0 && !AtMostOne(c, g, lv) {
      var t := g.trail[k-1];
      if ResolvesAt(c, g, lv, t) {
        StepKeeps(c, g, lv, k);
        FirstUipShape(ResolveAt(c, g, t), g, lv, k-1);
      } else {
        SkipKeeps(c, g, lv, k);
        FirstUipShape(c, g, lv, k-1);
      }
    }
  }

  /** It is implied as well, if the clauses it is resolved from are. */
  lemma {:induction false} FirstUipEntailed(f: seq<Clause>, c: set<Lit>, g: Graph, lv: nat, k: nat)
    requires k <= |g.trail| && ReasonsFrom(g, f) && Entails(f, c)
    ensures Entails(f, FirstUip(c, g, lv, k))
    decreases k
  {
    hide Entails;
    if k > 0 && !AtMostOne(c, g, lv) {
      var t := g.trail[k-1];
      if ResolvesAt(c, g, lv, t) {
        ResolventSound(f, c, Neg(t), g.reason[Var(t)].value);
        FirstUipEntailed(f, ResolveAt(c, g, t), g, lv, k-1);
      } else {
        FirstUipEntailed(f, c, g, lv, k-1);
      }
    }
  }

  /** Positions that the clause has no interest in may be skipped at once. */
  lemma {:induction false} FirstUipSkip(c: set<Lit>, g: Graph, lv: nat, j: nat, k: nat)
    requires j <= k <= |g.trail|
    requires forall i :: j <= i < k ==> !ResolvesAt(c, g, lv, g.trail[i])
    ensures FirstUip(c, g, lv, k) == FirstUip(c, g, lv, j)
    decreases k
  {
    if j < k && !AtMostOne(c, g, lv) {
      FirstUipSkip(c, g, lv, j, k-1);
    }
  }

  /** With several literals of `c` on `lv` left, the latest of them has a
      reason, and resolving on it is the next step of the reference analysis. */
  lemma LatestIsResolvable(c: set<Lit>, g: Graph, lv: nat, at: nat, k: nat)
    requires WellFormed(g) && k <= |g.trail|
    requires Falsified(c, g) && Before(c, g, lv, k) && !AtMostOne(c, g, lv)
    requires at < |g.trail| && Neg(g.trail[at]) in c && AtLevel(g.trail[at], g, lv)
    requires forall i :: at < i < k ==> !(Neg(g.trail[i]) in c && AtLevel(g.trail[i], g, lv))
    ensures at < k && ResolvesAt(c, g, lv, g.trail[at])
    ensures var d := ResolveAt(c, g, g.trail[at]);
            && Falsified(d, g) && Before(d, g, lv, at) && Reaches(d, g, lv)
            && FirstUip(d, g, lv, at) == FirstUip(c, g, lv, k)
  {
    var t := g.trail[at];
    assert Before(c, g, lv, at + 1) by {
      forall l | l in c && AtLevel(l, g, lv)
        ensures g.pos[Var(l)] <= at
      {
        assert Neg(g.trail[g.pos[Var(l)]]) == l && AtLevel(g.trail[g.pos[Var(l)]], g, lv);
      }
    }
    FirstUipSkip(c, g, lv, at + 1, k);
    if ResolvesAt(c, g, lv, t) {
      StepKeeps(c, g, lv, at + 1);
    } else {
      SkipKeeps(c, g, lv, at + 1);
      assert false;
    }
  }
}
